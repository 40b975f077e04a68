# Personal-data redaction and path-exclusion checks

This project models two small string routines from a web-API training
repository and proves properties about them in Dafny.

- **PII redaction** (`0x00-personal_data/filtered_logger.py`, module
  `FilteredLogger` in `filtered_logger.dfy`). `filter_datum` rewrites a log
  message once per sensitive field name, in list order. Each rewrite is
  `re.sub(f'{field}=.+?{separator}', f'{field}={redaction}{separator}', message)`.
  `RedactingFormatter` fixes the field list when it is constructed. It uses the
  marker `***` and the separator `;`.
  - `RedactField` models one `re.sub` pass as a left-to-right scan. At each
    position the pattern is tried, anchored there. The value `.+?` is the
    shortest non-empty run of characters other than newline that is followed
    by the literal separator. On a match the whole segment is replaced and the
    scan resumes after it. Otherwise one character is copied.
  - `FilterDatum` is the loop over the fields. It is proved equal to the fold
    `FilterAll`.
- **Path exclusion** (`0x01-Basic_authentication/api/v1/auth/auth.py`, module
  `BasicAuth` in `auth.dfy`). `Auth.require_auth` decides whether a request
  path needs authentication.
  - It strips one trailing `/` from the path.
  - It walks the excluded list by index and strips one trailing `/` from each
    entry **in place**.
  - It gives up (answers False) at the first entry ending in `*` whose
    wildcard test fires. Otherwise it answers False exactly when the stripped
    path is among the stripped entries.
  - `Auth.RequireAuth` works on an `array?<string>` (`null` is Python's
    `None`). It is proved against the pure function `Decision` and against
    `StripFirst`/`Visited`, which describe the list after the call.
  - `authorization_header` and `current_user` are a header-map lookup and a
    constant `None`.

Where Python raises `IndexError`, `Decision` returns `IndexError`:
- `path[-1]` on an empty path;
- `excluded_paths[p][-1]` on an entry `""`;
- the same index on an entry `"/"` once its slash is stripped.

The method requires that this outcome does not occur. The requirement is
exact: an invalid entry after an early `return False` is allowed.
`IndexErrorExactly` characterises it.

The wildcard test at `auth.py:26-28` is a containment test, not a prefix test.
`path[:len(e[:-1]) - 1] in e[:-1]` asks whether the first `len(e) - 2`
characters of the path occur anywhere in the entry without its `*`. The model
follows the code as written:
- `ShortPathExcludedByWildcard` shows that `/a` is excluded by `/api/v1/stat*`.
- `TwoCharacterWildcardExcludesAll` shows that an entry such as `a*` excludes
  every non-empty path.
- For an entry `*` the slice bound is `-1`. `PySliceTo` models Python's
  negative slice for this case.

`wrappers.dfy` holds the `Option` type shared by both modules.

## Model

| member | source | states |
|---|---|---|
| FilteredLogger.ShortestValueFrom | 0x00-personal_data/filtered_logger.py:17 | searching upwards from `k`, the result is the first end of a non-empty, newline-free value followed by the separator, or None when no such end exists at or after `k` |
| FilteredLogger.ShortestValue | 0x00-personal_data/filtered_logger.py:17 | `.+?<sep>` picks the shortest value end, and finds none exactly when no value end exists at all |
| FilteredLogger.ShortestValueIsUnique | 0x00-personal_data/filtered_logger.py:17 | the lazy quantifier settles on the first value end and no other |
| FilteredLogger.MatchLength | 0x00-personal_data/filtered_logger.py:17 | when the anchored pattern `<field>=.+?<sep>` matches, the match is at least `<field>=`, one character and the separator long, and fits in the message |
| FilteredLogger.MatchLengthShortest | 0x00-personal_data/filtered_logger.py:17 | a match starts with `<field>=` and its value ends at the shortest value end, as the lazy `.+?` requires |
| FilteredLogger.MatchLengthNoneExactly | 0x00-personal_data/filtered_logger.py:17 | the anchored pattern fails exactly when no match end exists at that position |
| FilteredLogger.RedactField | 0x00-personal_data/filtered_logger.py:17-18 | one `re.sub` pass, defined as a single left-to-right scan; what it does is established by `CopiesUnmatchedPrefix`, `RedactsSegment`, `NoMatchUnchanged` and the rows below |
| FilteredLogger.CopiesUnmatchedPrefix | 0x00-personal_data/filtered_logger.py:17-18 | text before the first match position is copied unchanged and the substitution continues on the rest |
| FilteredLogger.NoMatchUnchanged | 0x00-personal_data/filtered_logger.py:17-18 | a message in which the pattern matches at no position comes back identical |
| FilteredLogger.NoKeyUnchanged | 0x00-personal_data/filtered_logger.py:17-18 | a message with no occurrence of `<field>=` comes back identical |
| FilteredLogger.NoSeparatorUnchanged | 0x00-personal_data/filtered_logger.py:17-18 | a message with no occurrence of the separator comes back identical, with no error |
| FilteredLogger.MatchesSegment | 0x00-personal_data/filtered_logger.py:17 | at the start of `<field>=<v><sep><b>`, with `v` non-empty, newline-free and not cut short by an earlier separator, the match ends right after that separator |
| FilteredLogger.RedactsSegment | 0x00-personal_data/filtered_logger.py:17-18 | such a segment, with no match before it, becomes `<field>=<redaction><sep>`; the text before it is kept and the scan resumes right after it |
| FilteredLogger.RedactedSegmentKept | 0x00-personal_data/filtered_logger.py:17-28 | with marker `***` and separator `;`, a segment `<field>=***;` is rewritten to itself |
| FilteredLogger.EmptyValueUntouched | 0x00-personal_data/filtered_logger.py:17 | `<field>=<sep>` followed by any text in which no later separator starts is left untouched, because `.+?` needs one character and the separator cannot be that character without a second separator after it |
| FilteredLogger.SeparatorAsValueCharacter | 0x00-personal_data/filtered_logger.py:17-18 | when a second separator follows, the first one is taken as the value: with `password`, `***` and `;`, `password=;x;` becomes `password=***;` |
| FilteredLogger.NotWordBounded | 0x00-personal_data/filtered_logger.py:17 | with field `name`, `xname=a;` becomes `xname=***;` |
| FilteredLogger.RedactsLiteralSegment | 0x00-personal_data/filtered_logger.py:17-18 | with marker `***` and separator `;`, a segment `<field>=<v>;` whose value has no `;` or newline, preceded by text not holding the field's first character, is redacted and the rest is passed on |
| FilteredLogger.FilterAll | 0x00-personal_data/filtered_logger.py:16-18 | the fold of one substitution pass per field, in list order; `FilterDatum`, `FilterAllAppend`, `FilterAllNoMatch` and the examples below state what it computes |
| FilteredLogger.FilterDatum | 0x00-personal_data/filtered_logger.py:12-19 | the loop's result is each field's substitution applied in list order to the previous output; an empty field list returns the message unchanged |
| FilteredLogger.FilterAllAppend | 0x00-personal_data/filtered_logger.py:16-18 | splitting the field list splits the work: the later fields run on the earlier fields' output |
| FilteredLogger.FilterAllNoMatch | 0x00-personal_data/filtered_logger.py:16-19 | when no field's pattern matches anywhere in the message, the message comes back identical |
| FilteredLogger.RedactingFormatter.constructor | 0x00-personal_data/filtered_logger.py:30-33 | the formatter keeps the given field list, which is immutable afterwards |
| FilteredLogger.RedactingFormatter.Format | 0x00-personal_data/filtered_logger.py:35-38 | formatting a rendered line is `filter_datum(fields, "***", line, ";")` with the constructor's fields |
| FilteredLogger.RedactsPasswordExample | 0x00-personal_data/filtered_logger.py:16-18 | with fields `["password"]`, `name=John;password=hunter2;` becomes `name=John;password=***;` |
| FilteredLogger.SsnPassKeepsRest | 0x00-personal_data/filtered_logger.py:17-18 | the `ssn` pass leaves `password=abc;` unchanged, since it holds no `ssn=` |
| FilteredLogger.RedactsSsnPass | 0x00-personal_data/filtered_logger.py:17-18 | the `ssn` pass turns `ssn=123-45-6789;password=abc;` into `ssn=***;password=abc;` |
| FilteredLogger.RedactsPasswordPass | 0x00-personal_data/filtered_logger.py:17-18 | the `password` pass turns `ssn=***;password=abc;` into `ssn=***;password=***;` |
| FilteredLogger.RedactsTwoFieldsInOrder | 0x00-personal_data/filtered_logger.py:16-18 | with fields `["ssn", "password"]`, `ssn=123-45-6789;password=abc;` becomes `ssn=***;password=***;`, one pass per field in list order |
| BasicAuth.StripSlashDropsOneSlash | 0x01-Basic_authentication/api/v1/auth/auth.py:20-25 | stripping removes exactly one trailing `/` when there is one and otherwise leaves the string alone; the result is always a prefix |
| BasicAuth.PySliceToIsPrefix | 0x01-Basic_authentication/api/v1/auth/auth.py:27-28 | Python's `s[:stop]` is a prefix of `s`: `stop` characters for `0 <= stop <= len(s)`, all of `s` beyond that, `len(s) + stop` characters for a negative `stop`, and none below `-len(s)` |
| BasicAuth.IsSubstringExactly | 0x01-Basic_authentication/api/v1/auth/auth.py:28 | Python's `x in y` on strings holds exactly when `x` starts at some position of `y` |
| BasicAuth.WildcardFires | 0x01-Basic_authentication/api/v1/auth/auth.py:26-28 | the wildcard test on one stripped entry; `WildcardCoversPrefixes`, `ShortPathExcludedByWildcard` and `TwoCharacterWildcardExcludesAll` state when it fires |
| BasicAuth.WildcardCoversPrefixes | 0x01-Basic_authentication/api/v1/auth/auth.py:26-28 | an entry ending in `*` fires for every path that starts with the entry minus its last two characters, and for every path that is a prefix of that stem |
| BasicAuth.ScanFrom | 0x01-Basic_authentication/api/v1/auth/auth.py:23-29 | how the loop from index `i` ends: at the first firing entry, at the end, or at an entry it cannot index; `ScanFromCharacterized` characterises it |
| BasicAuth.ScanFromCharacterized | 0x01-Basic_authentication/api/v1/auth/auth.py:23-29 | the loop stops at the first entry whose wildcard test fires, after only indexable, non-firing entries; it runs to the end exactly when every entry is indexable and none fires; otherwise it reaches an entry `""` or `"/"` |
| BasicAuth.StripFirst | 0x01-Basic_authentication/api/v1/auth/auth.py:23-25 | the list after the first `n` entries are stripped keeps its length |
| BasicAuth.Visited | 0x01-Basic_authentication/api/v1/auth/auth.py:23-29 | the loop visits at most every entry of the list |
| BasicAuth.Decision | 0x01-Basic_authentication/api/v1/auth/auth.py:12-34 | the outcome of `require_auth` on a path and a list, `IndexError` included; `RequiredWithoutPathOrExclusions`, `IndexErrorExactly`, `ExcludedExactly` and `TrailingSlashIgnored` state what it decides |
| BasicAuth.Auth.RequireAuth | 0x01-Basic_authentication/api/v1/auth/auth.py:12-34 | the method answers what `Decision` says for the original list; afterwards exactly the visited entries are stripped of one trailing `/` and the rest are untouched |
| BasicAuth.Auth.StripUntilFired | 0x01-Basic_authentication/api/v1/auth/auth.py:23-29 | the loop reports an early return exactly when some wildcard test fires; the entries up to and including the firing one (all entries if none fires) are stripped in place |
| BasicAuth.Auth.AuthorizationHeader | 0x01-Basic_authentication/api/v1/auth/auth.py:36-42 | the result is present exactly when there is a request with an `Authorization` header, and is that header's value |
| BasicAuth.Auth.CurrentUser | 0x01-Basic_authentication/api/v1/auth/auth.py:44-46 | there is never a current user |
| BasicAuth.RequiredWithoutPathOrExclusions | 0x01-Basic_authentication/api/v1/auth/auth.py:14-18 | a `None` path, or a `None` or empty excluded list, requires authentication |
| BasicAuth.IndexErrorExactly | 0x01-Basic_authentication/api/v1/auth/auth.py:20-26 | `IndexError` happens exactly when the path is empty, or an entry `""` or `"/"` is reached before any wildcard test fires |
| BasicAuth.ExcludedExactly | 0x01-Basic_authentication/api/v1/auth/auth.py:20-34 | without an error, the result is False exactly when some entry's wildcard test fires or some stripped entry equals the stripped path |
| BasicAuth.TrailingSlashIgnored | 0x01-Basic_authentication/api/v1/auth/auth.py:20-32 | a path and an entry that differ only by one trailing `/` make the result False |
| BasicAuth.StatusExcludedEitherWay | 0x01-Basic_authentication/api/v1/auth/auth.py:20-32 | `/api/v1/status` against `["/api/v1/status/"]` gives False, and so does the reverse |
| BasicAuth.ShortPathExcludedByWildcard | 0x01-Basic_authentication/api/v1/auth/auth.py:26-29 | the wildcard test is containment: `/a` is excluded by `/api/v1/stat*` |
| BasicAuth.TwoCharacterWildcardExcludesAll | 0x01-Basic_authentication/api/v1/auth/auth.py:26-29 | a two-character wildcard entry such as `a*` excludes every non-empty path |

## Left out

- `get_logger`, `get_db` and `main` (`filtered_logger.py:41-78`): they set up logging handlers, read the environment and query MySQL, which is all I/O.
- The rendering done by `logging.Formatter.format` (the `FORMAT` template at `filtered_logger.py:27`): `Format` takes the rendered line as its input.
- `PII_FIELDS` is declared as a constant, but no model member uses it. Its only user is `get_logger`, which is left out.
- Full regular-expression semantics: field names and the separator are treated as literal strings. A metacharacter in either one (`.`, `*`, `|`, ...) would change the pattern in Python and is not modelled.
- The replacement string is treated literally. Python's backslash and group-reference processing in `re.sub` replacements is not modelled.
- General idempotence of one substitution pass is not proved. Only `RedactedSegmentKept` is proved, for a single segment with the stock marker and separator.
- `encrypt_password.py`: bcrypt hashing with a random salt is a foreign library call.
- Flask's `request` object: a request is reduced to a map of headers with exact, case-sensitive keys.
- BasicAuth.Auth.RequireAuth: the Python `IndexError` cases are preconditions. The entries stripped before a raise are therefore not modelled.
- BasicAuth.Auth.RequireAuth: the list is an array the method may modify. Aliasing of that list with other Python references is not modelled.
- BasicAuth.Auth.RequireAuth: paths and entries are `str` values. A non-string entry, and the `TypeError` it would cause, is outside the model.
