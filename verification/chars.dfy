/** Character classes used by the regular expressions and `str` predicates
    of the cleaning pipeline.  Python's classes are Unicode-wide; here they
    are ASCII plus the Vietnamese letters the form is written for. */
module CharClasses {

  /** `\d`: decimal digits (ASCII only in this model). */
  predicate IsDigit(c: char) {
    '0' <= c <= '9'
  }

  /** `\s` and the set `str.strip()` removes: exactly the characters for
      which CPython's `str.isspace()` holds. */
  predicate IsSpace(c: char) {
    ('\t' <= c <= '\r') || ('\U{1C}' <= c <= ' ') || c == '\U{85}' || c == '\U{A0}'
    || c == '\U{1680}' || ('\U{2000}' <= c <= '\U{200A}') || c == '\U{2028}' || c == '\U{2029}'
    || c == '\U{202F}' || c == '\U{205F}' || c == '\U{3000}'
  }

  /** The plain space `' '`, the only character `replace(' ', '')` deletes. */
  predicate IsBlank(c: char) { c == ' ' }

  predicate IsDash(c: char) { c == '-' }

  predicate IsAsciiUpper(c: char) { 'A' <= c <= 'Z' }
  predicate IsAsciiLower(c: char) { 'a' <= c <= 'z' }
  predicate IsAsciiAlnum(c: char) { IsAsciiUpper(c) || IsAsciiLower(c) || IsDigit(c) }

  /** The Vietnamese capital letters with diacritics. */
  predicate IsVietUpper(c: char) {
    c in {
      'À', 'Á', 'Ả', 'Ã', 'Ạ', 'Â', 'Ấ', 'Ầ', 'Ẩ', 'Ẫ', 'Ậ', 'Ă', 'Ắ', 'Ằ', 'Ẳ', 'Ẵ', 'Ặ',
      'È', 'É', 'Ẻ', 'Ẽ', 'Ẹ', 'Ê', 'Ế', 'Ề', 'Ể', 'Ễ', 'Ệ', 'Ì', 'Í', 'Ỉ', 'Ĩ', 'Ị', 'Ò',
      'Ó', 'Ỏ', 'Õ', 'Ọ', 'Ô', 'Ố', 'Ồ', 'Ổ', 'Ỗ', 'Ộ', 'Ơ', 'Ớ', 'Ờ', 'Ở', 'Ỡ', 'Ợ', 'Ù',
      'Ú', 'Ủ', 'Ũ', 'Ụ', 'Ư', 'Ứ', 'Ừ', 'Ử', 'Ữ', 'Ự', 'Ý', 'Ỳ', 'Ỷ', 'Ỹ', 'Ỵ', 'Đ'
    }
  }

  /** Their small forms. */
  predicate IsVietLower(c: char) {
    c in {
      'à', 'á', 'ả', 'ã', 'ạ', 'â', 'ấ', 'ầ', 'ẩ', 'ẫ', 'ậ', 'ă', 'ắ', 'ằ', 'ẳ', 'ẵ', 'ặ',
      'è', 'é', 'ẻ', 'ẽ', 'ẹ', 'ê', 'ế', 'ề', 'ể', 'ễ', 'ệ', 'ì', 'í', 'ỉ', 'ĩ', 'ị', 'ò',
      'ó', 'ỏ', 'õ', 'ọ', 'ô', 'ố', 'ồ', 'ổ', 'ỗ', 'ộ', 'ơ', 'ớ', 'ờ', 'ở', 'ỡ', 'ợ', 'ù',
      'ú', 'ủ', 'ũ', 'ụ', 'ư', 'ứ', 'ừ', 'ử', 'ữ', 'ự', 'ý', 'ỳ', 'ỷ', 'ỹ', 'ỵ', 'đ'
    }
  }

  predicate IsUpper(c: char) { IsAsciiUpper(c) || IsVietUpper(c) }
  predicate IsLower(c: char) { IsAsciiLower(c) || IsVietLower(c) }

  /** `str.isalnum()` of one character. */
  predicate IsAlnum(c: char) { IsUpper(c) || IsLower(c) || IsDigit(c) }

  /** `\w`: alphanumerics and the underscore. */
  predicate IsWordChar(c: char) { IsAlnum(c) || c == '_' }

  /** `str.lower()` of one character. */
  function ToLower(c: char): (d: char)
    ensures IsUpper(c) ==> IsLower(d)
    ensures !IsUpper(c) ==> d == c
  {
    if IsAsciiUpper(c) then (c as int + 32) as char
    else if IsVietUpper(c) then
      // Unicode puts each small letter 32 code points after its capital in
      // Latin-1 and right after it elsewhere.
      if c < '\U{100}' then (c as int + 32) as char else (c as int + 1) as char
    else c
  }

  /** `str.lower()`. */
  function Lower(s: string): (r: string)
    ensures |r| == |s|
  {
    seq(|s|, i requires 0 <= i < |s| => ToLower(s[i]))
  }

  /** Lower-casing turns every capital into a small letter and leaves every
      other character where it was. */
  lemma LowerFacts(s: string)
    ensures forall i :: 0 <= i < |s| && IsUpper(s[i]) ==> IsLower(Lower(s)[i])
    ensures forall i :: 0 <= i < |s| && !IsUpper(s[i]) ==> Lower(s)[i] == s[i]
  {
    forall i | 0 <= i < |s|
      ensures Lower(s)[i] == ToLower(s[i])
    {
    }
  }

  /** `str.isupper()`: some cased character, and no lower-case one. */
  predicate IsUpperString(s: string) {
    (exists i :: 0 <= i < |s| && IsUpper(s[i])) && forall i :: 0 <= i < |s| ==> !IsLower(s[i])
  }

  /** A space is neither upper- nor lower-case. */
  lemma SpaceUncased()
    ensures !IsLower(' ') && !IsUpper(' ')
  {
  }
}
