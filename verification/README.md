# Registration form input cleaning, in Dafny

This project models the input-cleaning core of `form_ggs.py`, the script
behind an event-registration form. Before a submission is appended to a
spreadsheet, the script does four things:

- it canonicalises the phone field (`clean_phone_numbers`);
- it repairs common typos in each address of the email field
  (`fix_common_typos`, with the `corrections` table and `email_pattern`);
- it checks the email field (`validate_email`, `clean_emails`);
- it checks the whole record (`validate_data`).

All of it is modelled as pure functions over strings (`seq<char>`). Python's
regular expressions are written out as hand-made recognisers.

Modules, one per part of the script:

- `Values`: `Option` and `Cell`. A cell is `Text(s)` for a Python `str` and
  `NotText` for anything else (`None`, a number).
- `CharClasses`: `\d`, `\s`/`isspace`, `isalnum`, `\w`, `isupper` and `lower`.
- `Strings`: `str.find`, `split`, `join`, `replace`, `strip`, `count`, and
  deletion of a character class (`re.sub` with an empty replacement).
- `Phone`: `clean_phone_numbers` (lines 51-76). `PhoneExamples` holds worked
  inputs.
- `CorrectionTable`: the `corrections` dictionary display (lines 79-89) and
  the insertion-ordered dictionary it builds.
- `EmailPattern`: `email_pattern` (line 90) under `re.match` and `search`.
- `Email`: `fix_common_typos` (lines 92-129), written as its chain of
  stages. `EmailProps` holds what the chain does to whole addresses.
- `EmailCells`: `validate_email` and `clean_emails` (lines 131-151).
- `Registration`: `validate_data` (lines 154-175). `RegistrationProps`
  holds what its checks accept and reject.

`validate_data` mutates its argument and returns a list of message texts.
Here it returns a `Verdict`:

- `Checked(errors, record)`: the complaints in the order they are appended,
  and the record after the phone and email columns are overwritten;
- `Raised(field)`: the first column whose non-text value makes a string
  operation raise (`re.match` on the name, `.replace` on the company,
  `re.sub` on the phone at line 167).

`Message` maps each complaint to its Vietnamese text.
`Registration.MessagesDistinct` shows that the four texts differ, so the
complaint list carries the same information as the list of texts.

## Where the code does not do what its own text says

The model follows the code. Each item below sets a line of the code against
a comment, a message or another line of the same script.

- **Names with digits pass.** The message at line 158, "Tên riêng không thể
  bao gồm số.", says a name may not contain digits. The pattern at line 157
  uses `\w`, which includes the digits, so `Nguyễn Văn A1` passes
  (`RegistrationProps.DigitsPassNameCheck`, `RegistrationProps.NameWithDigit`).
- **Phone cleaning is not idempotent.** Line 54 returns a field already in
  the grouped form unchanged, so a cleaned field should come back as it
  is. Two inputs change on a second pass:
  - `123/0912345678` cleans to `123 - 0912 345 678`, which the line 54
    check does not recognise. A second pass glues it into `1230912345678`
    (`PhoneExamples.SlashResultNotStable`).
  - `-8412` keeps its `84`, because the dash is deleted only after the
    country-code check. A second pass turns it into `012`
    (`PhoneExamples.DashHidesCountryCode`).
- **`|` does not separate numbers.** Numbers are separated by `/` (line 62),
  but line 56 turns `|` into `-`, the dash that line 64 and line 66 delete
  inside a number. Two local numbers written `a|b` are glued into one
  twenty-digit run, which line 167 then rejects
  (`PhoneExamples.BarJoinsNumbers`). A `|` in front of `84` hides the
  country code, so `|8412` keeps its `84` (`PhoneExamples.BarHidesCountryCode`).
- **Partial canonical form is accepted.** The pattern at line 54 spells
  out a whole list of grouped numbers joined by `" - "`, but `re.match` has
  no end anchor. Any field that merely starts with `dddd ddd ddd` is
  returned unchanged (`Phone.IsCanonicalStart`).
- **Exceptions escape.** Lines 52-53 return a non-text phone unchanged, and
  lines 132-133 return `(None, False)` for a non-text email, so non-text input
  is meant to be handled. `validate_data` nevertheless applies a string
  operation to a non-text name, company or phone and raises
  (`Registration.Validate`).
- **Short numbers can pass together.** Lines 62-65 clean the numbers of
  `a/b` one by one, but line 167 counts the digits of the joined result.
  Two short numbers whose digits total ten or eleven are accepted
  (`RegistrationProps.ShortPairAccepted`). Two well-formed numbers are
  rejected (`RegistrationProps.TwoLocalNumbersRejected`).
- **Every `gmail` is completed.** The comment at line 119 speaks of
  "ending with 'gmail'", and line 120 tests the ending. Line 121 replaces
  every `gmail` in the address, so `me.gmail@gmail` becomes
  `me.gmail.com@gmail.com` (`EmailProps.GmailEverywhere`,
  `EmailProps.GmailTwice`).
- **Email cleaning is not idempotent.** The comment at line 123 speaks of a
  final `.com` adjustment, and line 127 removes "the extra 'm'" only at the
  end. The `.co` rewrite at line 88 is applied with `str.replace`, so it
  hits every `.co`, not only a truncated ending. A `.com` inside the local
  part grows an `m` on every pass: `a.co@b.com` becomes `a.com@b.com`, and
  a second pass gives `a.comm@b.com` (`EmailProps.CoNotIdempotent`).
- **A blank email is accepted.** Line 174 complains about an invalid
  address ("Địa chỉ email chưa hợp lệ."), but an email cell of only
  whitespace yields no entries, so the flag set at line 143 stays true. The
  cell is stored as the empty text with no complaint
  (`RegistrationProps.BlankEmailAccepted`).

## Model

| member | source | states |
|---|---|---|
| `Phone.IsCanonicalStart` | form_ggs.py:54 | A field passes the line 54 check exactly when its first twelve characters are the grouped form of ten digits. |
| `Phone.StripCountryCode` | form_ggs.py:58-61 | A leading `+84` or `84` becomes a leading `0`, and everything after the code is kept: the result is the text after the code with `0` in front. Any other text is unchanged. |
| `Phone.Prepare` | form_ggs.py:56-61 | The prepared field is no longer than the input and holds no `\|`, dot, whitespace or bracket. |
| `Phone.PrepareBar` | form_ggs.py:56-61 | A `\|` between two stripped texts becomes a `-`, and nothing else changes when the text has no country code. |
| `Phone.PrepareTrunkCode` | form_ggs.py:60-61 | `84` in front of digits becomes `0`, and the digits after it are kept. |
| `Phone.CleanPart` | form_ggs.py:64 | The piece with its outer whitespace trimmed and every `-` deleted; all its other characters are kept, in order. |
| `Phone.CleanPartNoSpace` | form_ggs.py:64 | A piece without whitespace only loses its dashes. |
| `Phone.CleanPartDash` | form_ggs.py:64 | The dash between two dash-free, space-free texts is deleted and both texts are kept. |
| `Phone.LeadingDigits` | form_ggs.py:67-69 | The match of `(\d+)`: a prefix of the text, all digits, followed by the end or by a non-digit. |
| `Phone.WithTrunkZero` | form_ggs.py:70-71 | The run starts with `0` afterwards. It is left as it is exactly when it already started with `0`; otherwise `0` is prepended. |
| `Phone.CleanPhone` | form_ggs.py:51-76 | A field that already starts `dddd ddd ddd` comes back unchanged. Every other field comes back with no separator except plain spaces. |
| `Phone.CleanEach` | form_ggs.py:63-64 | One result per `/`-piece, in order. Each is the piece trimmed, stripped of dashes and cleaned again. |
| `Phone.GroupShape` | form_ggs.py:72-75 | Grouping a 10- or 11-digit run gives text that passes the line 54 check. It is two characters longer and holds exactly the digits of the run, in order. |
| `Phone.CleanPhoneSingle` | form_ggs.py:66-76 | A field not already in grouped form, with no `/` once prepared, comes out without `-`. A groupable run gives its group, which a second pass leaves alone. Otherwise the result is the prepared text without dashes. |
| `Phone.CleanPhoneSeveral` | form_ggs.py:62-65 | A field with `/` splits into one more piece than it has slashes. The result joins the cleaned pieces with `" - "` and holds one `-` per slash. |
| `Phone.PrepareCountryCode` | form_ggs.py:58-59 | `+84` in front of digits becomes `0`. |
| `PhoneExamples.LocalTen` | form_ggs.py:66-73 | A ten-digit local number is grouped `dddd ddd ddd`. |
| `PhoneExamples.TwoLocal` | form_ggs.py:62-65 | Two local numbers separated by `/` are grouped one by one and joined by `" - "`. |
| `PhoneExamples.CountryCodeNumber` | form_ggs.py:51-76 | `+84987123456` cleans to `0987 123 456`. |
| `PhoneExamples.CodeNumbers` | form_ggs.py:58-75 | `84` or `+84` in front of nine or ten digits is replaced by `0`, and the number is grouped. |
| `PhoneExamples.DashedSlashLocal` | form_ggs.py:62-75 | In `x-y-z/d` the dashes inside the first number are deleted; both numbers are grouped and joined by `" - "`. |
| `PhoneExamples.DashedNumbers` | form_ggs.py:62-75 | `0123-456-789/0987654321` cleans to `0123 456 789 - 0987 654 321`. |
| `PhoneExamples.BarJoinsNumbers` | form_ggs.py:56-76 | Two local numbers written `a\|b` are glued into one twenty-digit run, which is not grouped. |
| `PhoneExamples.BarHidesCountryCode` | form_ggs.py:56-76 | A `\|` in front of a short `84…` field keeps the `84`; without the bar, the `84` becomes `0`. |
| `PhoneExamples.TwoNumbers` | form_ggs.py:62-65 | `0123456789/0987654321` cleans to `0123 456 789 - 0987 654 321`. |
| `PhoneExamples.ShortNumber` | form_ggs.py:67-76 | A run of at most eight digits not starting with `8` cleans to itself: with its `0` it is too short to group. |
| `PhoneExamples.RecleanJoined` | form_ggs.py:54-76 | A second pass over `x - dddd ddd ddd` deletes the separator and spaces and glues the digits together. |
| `PhoneExamples.SlashResultNotStable` | form_ggs.py:54-65 | Cleaning `123/0912345678` twice does not give the first result. |
| `PhoneExamples.DashHidesCountryCode` | form_ggs.py:56-66 | A leading `-` hides the `84` country code from the first pass, and the second pass replaces it. |
| `PhoneExamples.EmptyPhone` | form_ggs.py:66-76 | An empty field stays empty. |
| `CorrectionTable.KeyIndex` | form_ggs.py:79-89 | Finds the position of a key when it is present, and reports absence only when no entry has that key. |
| `CorrectionTable.Insert` | form_ggs.py:79-89 | Dictionary assignment keeps keys distinct. An existing key keeps its position and takes the new value; a new key goes at the end. Every other entry is unchanged. |
| `CorrectionTable.DictExtend` | form_ggs.py:79-89 | A display whose new keys are all fresh appends them in order. |
| `CorrectionTable.DictRepeat` | form_ggs.py:79-89 | Repeating an earlier pair in a display changes nothing. |
| `CorrectionTable.CorrectionsFromPairs` | form_ggs.py:79-89 | The 28 written pairs build the 27-entry table with distinct keys. The repeated `gmaill.com` keeps its first position. |
| `EmailPattern.MatchAt` | form_ggs.py:90 | Whatever the matcher returns from `i` is an address slice. |
| `EmailPattern.MatchAtComplete` | form_ggs.py:90 | Any address slice starting at `i` is found, and the match found is at least as long. |
| `EmailPattern.MatchAtIff` | form_ggs.py:90 | The pattern matches at `i` exactly when some slice starting at `i` is an address. |
| `EmailPattern.SearchFrom` | form_ggs.py:102 | The start found is the leftmost with a match, and no earlier start matches. When nothing is found, no start matches. |
| `EmailPattern.Search` | form_ggs.py:102 | The match found starts at the leftmost position where the pattern matches, and is the longest match there. When nothing is found, no position matches. |
| `EmailPattern.SearchNoneIff` | form_ggs.py:102-104 | `search` finds nothing exactly when no slice of the text is an address. |
| `EmailPattern.SearchWhole` | form_ggs.py:102-104 | An address is found whole. |
| `EmailPattern.AddressOneAt` | form_ggs.py:90 | An address holds exactly one `@`. |
| `Email.Tidy` | form_ggs.py:95 | Outer whitespace is stripped, then outer dashes, then every plain space is deleted; all other characters, including inner tabs and newlines, are kept in order. |
| `Email.TidyKeepsTab` | form_ggs.py:95 | A tab between two words is not deleted: only the plain space is. |
| `Email.TidyDashBeforeSpace` | form_ggs.py:95 | Dashes are stripped before spaces are deleted, so `- ` followed by `-a@b.com` gives `-a@b.com`. |
| `Strings.DeleteChar` | form_ggs.py:95 | `replace(c, '')` for one character deletes exactly the occurrences of that character. |
| `Email.TidyTrims` | form_ggs.py:95 | Outer whitespace goes first, then the dashes it enclosed: an address padded by whitespace around dashes comes back bare. |
| `Strings.StripSlice` | form_ggs.py:95 | `strip` removes exactly the leading and trailing characters of its class: when everything outside a slice is in the class and the slice's ends are not, the result is that slice. |
| `Email.TidyKeeps` | form_ggs.py:95 | Text with no whitespace and no outer dash is already tidy. |
| `Email.ApplyTableAppend` | form_ggs.py:98-99 | Running the table in two halves, one after the other, is running the whole table. |
| `Email.ApplyTable` | form_ggs.py:98-99 | Text holding none of the keys passes the table unchanged. |
| `Email.ApplyTableAvoids` | form_ggs.py:98-99 | A character in neither the text nor any replacement is not in the result. |
| `Email.Extract` | form_ggs.py:102-104 | When `search` succeeds, the result is the slice it found, which is an address. Otherwise the text is unchanged. |
| `Email.ExtractWhole` | form_ggs.py:102-104 | An address comes back whole. |
| `Email.ExtractNone` | form_ggs.py:102-104 | Text with no address in it comes back unchanged. |
| `Email.CollapseAts` | form_ggs.py:107-109 | Text with at most one `@` is unchanged. With more, the text before the first `@` and that `@` are kept, and the rest follows in order with every `@` deleted, so exactly one `@` is left. |
| `Email.CollapseShape` | form_ggs.py:108-109 | Rejoining the pieces split at `@` with one `@` after the first piece gives the text before the first `@`, that `@`, and the rest with every `@` deleted. |
| `Email.CollapseKeepsFirst` | form_ggs.py:107-109 | For `@`-free `x`, `y`, `z`, `x@y@z` becomes `x@yz`: the first `@` is the one kept. |
| `Email.LowerIfUpper` | form_ggs.py:112-113 | The result is never all capitals and has the same length. All-capital text is lowered character by character. Text that is not all capitals is unchanged. |
| `Email.DropTrailingDot` | form_ggs.py:116-117 | One trailing dot is dropped. Other text is unchanged. |
| `Email.CompleteGmail` | form_ggs.py:120-121 | A `gmail` ending becomes a `gmail.com` ending, and the result never ends in `gmail`. Other text is unchanged. |
| `Email.TrimComm` | form_ggs.py:123-129 | A `.comm` ending loses its last `m`. The result never ends in `.comm`, and other text is unchanged. |
| `Email.FixTypos` | form_ggs.py:95-129 | The cleaned text holds no space and ends in neither `.comm` nor a bare `gmail`. |
| `Email.FixCommonTypos` | form_ggs.py:92-94 | `None` maps to `None` and text maps to text, with the guarantees of `FixTypos`. |
| `EmailProps.CoRoundTrip` | form_ggs.py:92-129 | A well-formed `.com` address whose only table key is its final `.co` comes back unchanged. The table makes it `.comm` and the last step trims it back. |
| `EmailProps.DoubleAt` | form_ggs.py:92-129 | `a@@b.com` becomes `a@b.com`. |
| `EmailProps.DoubleAtNoMatch` | form_ggs.py:102-104 | No address occurs in `a@@b.comm`, so the search leaves it alone. |
| `EmailProps.GmailEverywhere` | form_ggs.py:120-121 | For text ending in `gmail` whose pieces between the `gmail`s hold no `g`, every `gmail` becomes `gmail.com`, not only the last. |
| `EmailProps.GmailTwice` | form_ggs.py:120-121 | `a + "gmail" + b + "gmail"` becomes `a + "gmail.com" + b + "gmail.com"` when neither `a` nor `b` holds a `g`. |
| `EmailProps.CoNotIdempotent` | form_ggs.py:88-129 | For `x` and `y` made of the letters `a b c m o`, `x.co@y.com` becomes `x.com@y.com`, which becomes `x.comm@y.com`: a second pass changes the result. |
| `EmailProps.CoLocal` | form_ggs.py:92-129 | One pass over `x.co` + `w` + `@y.com` rewrites both `.co`, and only the final `.comm` is trimmed back. |
| `EmailProps.KeysAbsent` | form_ggs.py:79-89 | Of the first 26 keys only `.cm` can be spelled with `a b c m o . @`, so text of those characters with no `.` two places before an `m` holds none of them. |
| `EmailProps.TableOnlyCo` | form_ggs.py:88-99 | When the only key in `p.com` is the final `.co`, the table turns it into `p.comm`. |
| `EmailCells.Matches` | form_ggs.py:135 | `re.match` succeeds exactly when some prefix of the text is an address. |
| `EmailCells.ValidateEmail` | form_ggs.py:131-137 | A non-text value gives `(None, False)`. Text gives the cleaned text and a flag. The flag is true exactly when the cleaned text starts with an address. |
| `EmailCells.Entries` | form_ggs.py:141 | Kept parts are non-empty with no whitespace at either end, and there are no more of them than parts. |
| `EmailCells.EntriesKeep` | form_ggs.py:141 | Parts already stripped and non-blank are all kept, in order. |
| `EmailCells.EntriesBlank` | form_ggs.py:141 | Blank parts all drop out. |
| `EmailCells.EntriesPadded` | form_ggs.py:141 | A part padded with whitespace is kept, with the padding stripped. |
| `EmailCells.EntriesAppend` | form_ggs.py:141 | Each part is kept or dropped on its own: the entries of two runs of parts are those of the first, then those of the second. |
| `EmailCells.CleanAll` | form_ggs.py:142-148 | One cleaned entry per entry, in order, each the entry after `fix_common_typos`. |
| `EmailCells.CleanAllIff` | form_ggs.py:142-148 | The cleaned list holds what `validate_email` gives each entry. The loop's flag is true exactly when every entry's flag is. |
| `EmailCells.CleanEmails` | form_ggs.py:139-151 | A non-text cell gives `(None, False)`. Text gives the cleaned entries joined by `" - "`. The flag is true exactly when every entry validates. |
| `EmailCells.BlankCell` | form_ggs.py:139-149 | A whitespace-only cell cleans to the empty text and counts as valid. |
| `EmailCells.JoinedCell` | form_ggs.py:139-149 | Whitespace-free addresses joined by `" - "` come back as their cleaned forms, joined. The cell is valid exactly when each address is. |
| `Registration.NameMatches` | form_ggs.py:157 | The name pattern accepts exactly the non-empty texts made of class characters. |
| `Registration.CompanyOk` | form_ggs.py:160 | The company check passes exactly when some character is not a space and every non-space character is alphanumeric. |
| `Registration.PhoneOk` | form_ggs.py:167-168 | The phone check passes only for text of at least ten characters. For all-digit text it passes exactly at ten or eleven. |
| `Registration.MessagesDistinct` | form_ggs.py:158-174 | Two complaints have the same text only when they are the same complaint. |
| `Registration.Complaints` | form_ggs.py:155-174 | Each complaint is in the list exactly when its check failed. The list follows the order of the checks, each at most once. |
| `Registration.Cleaned` | form_ggs.py:163-172 | The record keeps its columns. The phone becomes its cleaned text and the email its cleaned cell. Every other column is unchanged. |
| `Registration.Validate` | form_ggs.py:154-175 | The validator raises exactly when the name, company or phone is present and not text, and it names the first such column. |
| `Registration.ValidateComplaints` | form_ggs.py:154-175 | Without a raise, each complaint is made exactly when its check fails, in check order and at most once. |
| `Registration.ValidateRecord` | form_ggs.py:163-172 | Without a raise, only the phone and email columns change, to their cleaned forms. |
| `RegistrationProps.DigitsPassNameCheck` | form_ggs.py:157-158 | A non-empty name of letters, digits and spaces passes the name check. |
| `RegistrationProps.NameWithDigit` | form_ggs.py:157-158 | `Nguyễn Văn A1` passes the name check although it ends in a digit. |
| `RegistrationProps.BlankCompany` | form_ggs.py:160-161 | A company name of spaces only fails the check. |
| `RegistrationProps.TwoGroupsRejected` | form_ggs.py:167-168 | Two grouped numbers joined by `" - "` have too many digits for the phone check. |
| `RegistrationProps.TwoLocalNumbersRejected` | form_ggs.py:163-168 | Two local numbers written `a/b` are stored grouped and joined, and the phone complaint is made. |
| `RegistrationProps.LocalNumberAccepted` | form_ggs.py:163-168 | A local number is stored grouped, and no phone complaint is made. |
| `RegistrationProps.ShortPairAccepted` | form_ggs.py:163-168 | Two short numbers written `a/b` with ten or eleven digits between them are stored as `a - b` and pass the phone check. |
| `RegistrationProps.BlankEmailAccepted` | form_ggs.py:170-174 | A whitespace-only email cell is stored as the empty text, and no email complaint is made. |

## Left out

- The form UI, the spreadsheet writes, the confirmation email, logging and
  credential loading are not modelled. They only pass data to outside
  services.
- Unicode classes are approximated:
  - `\d` is the ASCII digits;
  - `\s` and `isspace` are CPython's whitespace set;
  - `isalnum` and `\w` are the ASCII letters and digits plus the Vietnamese
    letters (and `_` for `\w`);
  - `isupper` and `lower` cover ASCII and Vietnamese letters only.

  Other scripts' letters and digits are not in these classes.
- `clean_phone_numbers` returns a non-text value unchanged. That path is
  modelled only where `validate_data` reaches it, which raises at line 167.
  `Phone.CleanPhone` takes text only.
- A non-text name, company or phone is modelled as a raise. `re.match`
  with a text pattern, `.replace(" ", "")` and `re.sub` raise `TypeError`
  or `AttributeError` for `None`, numbers and `bytes` alike (lines 157,
  160, 167). Objects of other classes with a text-like `replace` are not
  modelled; a form cell never holds one.
- `re.match` of the name pattern also accepts a final newline before the end
  anchor. This is modelled, and adds nothing: a newline is already in the
  class.
- `Phone.CleanPhone`: its contract does not state idempotence, because the
  code does not have it. `PhoneExamples.SlashResultNotStable` and
  `PhoneExamples.DashHidesCountryCode` show inputs where a second pass
  differs. The single-number case, where a second pass is stable, is stated
  in `Phone.CleanPhoneSingle`.
- `Email.FixTypos`: its contract does not state idempotence, because the
  code does not have it: `EmailProps.CoNotIdempotent` shows addresses that
  change on a second pass. A well-formed `.com` address whose only table
  key is the final `.co` is a fixed point (`EmailProps.CoRoundTrip`). The
  `a@@b.com` example is worked through in `EmailProps.DoubleAt`.
