# SecureShare access gate and upload loop, modelled in Dafny

SecureShare is a single-page web application. A user uploads files to an
external object store, protecting each with a password and an expiry time.
Both are written as a metadata string of the form
`password=<p>|expires_at=<t>`. The user then shares a link of the form
`<base>?file=<quoted public id>`. Someone who opens that link reaches the
access page. It asks the store for the object's metadata and then decides:

1. not found;
2. unmanaged, when there is no metadata;
3. expired;
4. granted, showing the minutes left;
5. denied;
6. nothing yet, while no password has been typed.

The model covers that decision and everything it rests on:

- Python's `str.strip()`, `str(int)` and the integer part of
  `int(float(s))`;
- `urllib.parse.quote` and the query-string decoding that reads `file` back;
- the upload page's password gate, expiry time and metadata string;
- the per-file upload loop, as a method with a loop invariant.

Modules follow the program's structure:

| module | file | what it holds |
|---|---|---|
| `Seqs` | `seqs.dfy` | `Option`, first-occurrence search, `split` and `split(d, 1)` |
| `Text` | `text.dfy` | `strip`, decimal text, integer parsing |
| `Quoting` | `quoting.dfy` | percent-encoding, query decoding, the shared link |
| `Access` | `access.dfy` | the access page's decision |
| `Upload` | `upload.dfy` | the upload gate, expiry time, metadata string, batch loop |
| `Sharing` | `sharing.dfy` | the store's decoding of the metadata string; upload followed by access |

The clock, the store's answers and the typed text are parameters. The store
is modelled as a lookup result for access, and as one outcome per file for
upload. The batch loop takes one clock reading per file, as the source does
inside its loop.

The expiry test is strict: the object stays accessible at the exact expiry
second (`now > expires_at`, app.py:53; `Access.ExpiryBoundary`). An expiry
time of 0 means "never expires". Only an empty metadata map is unmanaged
(app.py:39): a non-empty map is managed even without `password` or
`expires_at`, and a missing `password` compares as the text `"None"`
(`Access.MissingPasswordIsNone`).

## Model

| member | source | states |
|---|---|---|
| Access.Decide | app.py:36-86 | the decision in the page's order; granted minutes are at least 1; not found exactly when the store has no object |
| Access.UnmanagedFirst | app.py:39-41 | empty metadata is unmanaged whatever is typed and whenever |
| Access.ExpiryDominates | app.py:53-55 | past a non-zero expiry time every attempt, the right one included, is expired |
| Access.ExpiredIff | app.py:53-55 | expired exactly when the expiry time is non-zero and the clock is strictly past it, for any metadata map |
| Access.ExpiryBoundary | app.py:53 | at the exact expiry second the object is not expired |
| Access.NoExpiryNeverExpires | app.py:44-49 | a missing, empty or non-numeric expiry reads as 0, and such an object never expires |
| Access.ExpiryRoundTrip | app.py:47 | parsing what `str(n)` wrote gives `n` back |
| Access.PasswordCheck | app.py:57-82 | before expiry: granted iff the stripped texts are equal; denied iff unequal with a non-empty attempt; awaiting input iff unequal with an empty attempt |
| Access.BlankAttemptDenied | app.py:57-81 | an attempt of only whitespace is denied, not awaited, when the stored password has visible characters |
| Access.PaddingIrrelevant | app.py:57-59 | whitespace around the attempt changes neither whether access is granted nor the minutes shown |
| Access.MissingPasswordIsNone | app.py:43-57 | without a stored password the attempt `None` is granted |
| Access.TruncDiv | app.py:59 | the quotient truncated toward zero, bounded on both sides for each sign |
| Access.MinsLeft | app.py:59 | the minutes shown are at least 1 |
| Access.MinsLeftBounds | app.py:58-59 | at least 1; the whole minutes left, rounded down, when a minute or more remains; exactly 1 when under two minutes remain |
| Access.MinsLeftNoExpiry | app.py:58-59 | an object that never expires shows 1 minute |
| Access.StoredPassword | app.py:43-57 | specified by Access.MissingPasswordIsNone and Access.PasswordCheck: the stored `password`, or the text `None` when it is missing |
| Access.RequestedFile | app.py:26-29 | specified by Access.LinkOpensAccessPage and Upload.AccessLinkOpensFile: the `file` parameter of the page address |
| Access.LinkOpensAccessPage | app.py:119-120 | following a shared link opens the access page for the very id quoted into it |
| Text.StripLeftSpec | app.py:57 | `lstrip` result is a suffix; what it removes is whitespace; it starts with no whitespace |
| Text.StripRightSpec | app.py:57 | `rstrip` result is a prefix; what it removes is whitespace; it ends with no whitespace |
| Text.StripShape | app.py:57 | `strip` keeps an infix, removes only whitespace around it, and leaves no whitespace at either end |
| Text.StripUnique | app.py:57 | whitespace, then a core with no whitespace at its ends, then whitespace strips to exactly that core |
| Text.StripKeeps | app.py:57 | text with no whitespace at either end strips to itself |
| Text.StripIdempotent | app.py:57 | stripping twice is stripping once |
| Text.StripPadded | app.py:57 | whitespace added around text does not change what it strips to |
| Text.StripEmptyIff | app.py:93 | text strips to empty exactly when it is all whitespace |
| Text.NatToDecimal | app.py:105 | `str(n)` is a non-empty digit string with a leading `0` only for zero |
| Text.NatDecimalRoundTrip | app.py:105 | the value of `str(n)` is `n` |
| Text.DecimalNatRoundTrip | app.py:47 | a digit string without leading zeros is what `str` writes for its value |
| Text.IntToDecimalStripped | app.py:105 | `str(n)` is non-empty and unaffected by `strip` |
| Text.IntDecimalRoundTrip | app.py:47 | parsing `str(n)` gives `n`, negatives included |
| Quoting.QuoteWellFormed | app.py:120 | `quote` output is safe bytes and `%` followed by two uppercase hex digits |
| Quoting.QuoteAlphabet | app.py:120 | `quote` output contains no `&`, `=`, `+` or `?` |
| Quoting.QuoteIdentityIff | app.py:120 | `quote` leaves its input unchanged exactly when every byte is safe |
| Quoting.QuoteLength | app.py:120 | `quote` never shrinks its input and keeps the length only for all-safe input |
| Quoting.UnquoteQuote | app.py:120 | decoding `quote(s)` gives `s` |
| Quoting.QuoteInjective | app.py:120 | two different ids never quote to the same text |
| Quoting.FileFieldDecodes | app.py:27 | the field `file=` + `quote(id)` decodes to the name `file` and the value `id` |
| Quoting.LinkRoundTrip | app.py:119-120 | for a base without `?`, the `file` parameter of the link is exactly the quoted id |
| Upload.UploadEnabledIff | app.py:93 | the upload controls appear exactly when the password is not all whitespace |
| Upload.ExpiresAt | app.py:102 | the expiry time is a whole number of hours, 1 to 48, after the clock reading |
| Upload.BaseUrlHasNoQuery | app.py:119 | the page address has no `?` |
| Upload.AccessLinkOpensFile | app.py:119-120 | the shared link's `file` parameter is the uploaded id, and the access page opens for it |
| Upload.FileReport | app.py:104-141 | a file is reported uploaded exactly when the store stored it |
| Upload.BatchReports | app.py:98-141 | one result per selected file |
| Upload.BatchAt | app.py:98-141 | result `i` depends only on file `i`'s store answer and clock reading |
| Upload.FailureIsolated | app.py:104-141 | one file's failure leaves every other file's result unchanged and reports that file's message |
| Upload.UploadBatch | app.py:98-141 | the loop's results equal the per-file results, in file order |
| Upload.UploadPage | app.py:93-145 | password prompt iff no visible password; the no-files notice iff a password but no files; otherwise the batch results |
| Upload.UploadedReport | app.py:102-120 | each stored file reports its own id, a link decoding to that id, and an expiry 1 to 48 hours ahead |
| Sharing.DecimalHasNoPipe | app.py:105 | `str(t)` contains neither `|` nor `=` |
| Sharing.StoreContextPlain | app.py:37 | for text without a backslash the store's decoding is the plain one: split at `|`, each field at its first `=` |
| Sharing.UnitFieldsKeepsKey | app.py:37 | a key read from any field stays in the decoded map |
| Sharing.FieldsLast | app.py:37 | the last field with an `=` decides its key |
| Sharing.ExpirySurvivesPassword | app.py:105 | for a password without a backslash, whatever `|` and `=` it holds, the decoded expiry field is `str(t)` and reads back as `t`; a password such as `p|expires_at=0` is handled only because, under the assumed decoding, the later key wins |
| Sharing.ContextRoundTrip | app.py:105 | for a password without `|` or a backslash, the store hands back exactly the password and `str(t)` |
| Sharing.UploadedIsManaged | app.py:36-41 | whatever the password holds, the decoded map has the key `password`, so an uploaded file is never reported unmanaged |
| Sharing.ExpiredAfterUpload | app.py:53-55 | for a password without a backslash, after its expiry time every visitor of an uploaded file sees expired |
| Sharing.AccessBeforeExpiry | app.py:57-82 | for a password without `|` or a backslash: until expiry the uploaded file opens exactly for attempts that strip to the upload password, and shows the minutes left, 60 per hour right after upload |
| Sharing.FullMinutesAtUpload | app.py:58-59 | right after upload the minutes shown are 60 times the slider's hours |
| Sharing.OwnerGrantedAtUpload | app.py:57-60 | right after an upload with a password free of `|` and backslashes, the owner's password, bare or padded with whitespace, is granted 60 minutes per slider hour |
| Sharing.OneHourOwnerGranted | app.py:57-60 | a one-hour upload protected by `x7` opens for `x7` and ` x7 ` with 60 minutes left |
| Sharing.OneHourOthersKeptOut | app.py:57-81 | the same upload denies `x8` and awaits an empty attempt |
| Sharing.OneHourExpiredLater | app.py:53-55 | two hours later even `x7` meets expired |
| Sharing.PipeTruncatesPassword | app.py:105 | a password `a|rest` with no `|` in `a`, no `=` in `rest` and no backslash is handed back as `a` alone, beside the written expiry, and nothing else |
| Sharing.PipePasswordLockout | app.py:57-82 | before expiry a file uploaded with such a password denies that very password and grants its prefix `a` |
| Sharing.PipePasswordExample | app.py:105 | `a|b` for one hour at time 0: the store keeps `a`; `a|b` is denied and `a` is granted 60 minutes |
| Sharing.EscapedPipeDecode | app.py:37 | `key=a`, backslash, `|`, `tail` (none holding `|` or a backslash) decodes to the one key with the value `a|tail` |
| Sharing.BackslashSwallowsExpiry | app.py:105 | a password `a` plus a final backslash (no `|` or backslash in `a`) is handed back as one field: the password `a|expires_at=<t>` and no expiry key |
| Sharing.BackslashPasswordNeverExpires | app.py:44-82 | such an upload reads expiry 0, is never reported expired, and denies its owner's password at every time |
| Sharing.BackslashPasswordExample | app.py:105 | `x` plus a backslash, one hour at time 0: the store keeps `x|expires_at=3600`, and two hours later the owner is denied instead of meeting expired |
| Sharing.SafeUploadOpensForOwner | app.py:93-105 | with an upload gate that also refuses `|` and backslashes, every upload opens for its owner's password until expiry, for exactly the attempts that strip to it, and is expired for everyone after it |
| Access.ParseExpiry | app.py:46-49 | specified by Access.ExpiryRoundTrip and Access.NoExpiryNeverExpires: what `str(n)` wrote reads back as `n`; empty or non-numeric text reads as 0 |
| Access.ExpiryOf | app.py:44-49 | specified by Access.NoExpiryNeverExpires and Access.ExpiredIff: a missing key reads as 0, which never expires |
| Text.Strip | app.py:57 | specified by Text.StripShape and Text.StripUnique, which together pin it down independently of its definition |
| Text.StripLeft | app.py:57 | specified by Text.StripLeftSpec |
| Text.StripRight | app.py:57 | specified by Text.StripRightSpec |
| Text.IntToDecimal | app.py:105 | specified by Text.IntDecimalRoundTrip and Text.IntToDecimalStripped |
| Text.ParseInteger | app.py:47 | specified by Text.IntDecimalRoundTrip: it inverts `str(n)` for every integer |
| Quoting.Quote | app.py:120 | specified by Quoting.QuoteWellFormed, Quoting.QuoteIdentityIff, Quoting.QuoteLength and Quoting.UnquoteQuote |
| Quoting.QuoteByte | app.py:120 | specified by Quoting.UnquoteByte: decoding one encoded byte gives it back |
| Quoting.Unquote | app.py:27 | specified by Quoting.UnquoteQuote: it inverts `quote` |
| Quoting.Field | app.py:27 | specified by Quoting.FileFieldDecodes |
| Quoting.LastValue | app.py:27 | specified by Quoting.FileFieldDecodes |
| Quoting.Param | app.py:27 | specified by Quoting.LinkRoundTrip: a link's `file` parameter is the quoted id |
| Quoting.Link | app.py:120 | specified by Quoting.LinkRoundTrip |
| Upload.AccessLink | app.py:119-120 | specified by Upload.AccessLinkOpensFile |
| Upload.UploadEnabled | app.py:93 | specified by Upload.UploadEnabledIff: true exactly when the password is not all whitespace |
| Upload.ContextString | app.py:105 | specified by Sharing.ExpirySurvivesPassword, Sharing.ContextRoundTrip, Sharing.PipeTruncatesPassword and Sharing.BackslashSwallowsExpiry: what the store hands back for it |
| Sharing.StoreContext | app.py:37 | the assumed decoding of the metadata string, backslash escapes included (see Left out); specified by Sharing.StoreContextPlain, Sharing.UnitFieldsKeepsKey and Sharing.EscapedPipeDecode |
| Sharing.Units | app.py:37 | specified by Sharing.StoreContextPlain and Sharing.EscapedPipeDecode: backslash before `|` or `=` gives the literal character |
| Sharing.UnitFields | app.py:37 | specified by Sharing.UnitFieldsKeepsKey and, through Sharing.StoreContextPlain, by Sharing.FieldsLast, Sharing.FieldsSkip and Sharing.FieldsThree |
| Sharing.Fields | app.py:37 | specified by Sharing.FieldsLast, Sharing.FieldsSkip and Sharing.FieldsThree |
| Sharing.FieldsSkip | app.py:37 | fields without `=` add nothing to the decoded map |
| Sharing.FieldsThree | app.py:37 | a first and a last `key=value` field around `=`-free fields decode to exactly those two keys |

## Findings

| source | as written | input that shows it | evidently intended | confidence | as-written member | corrected member |
|---|---|---|---|---|---|---|
| app.py:105 | the gate at app.py:93 asks only for a visible character, and the password is written unescaped into the metadata string whose fields are separated by the pipe character | the password `a`, pipe, `b` for one hour, uploaded at time 0: the store hands back the password `a`, so the owner's own password is denied and `a` is granted | the password typed at upload opens the file | not executed; depends on the assumed store decoding of the metadata string | Sharing.PipePasswordLockout | Sharing.SafeUploadOpensForOwner |
| app.py:105 | the password is written unescaped, and the store reads a backslash before the pipe character as an escaped, literal pipe | the password `x` plus a backslash for one hour, uploaded at time 0: the store hands back one field, the password `x`, pipe, `expires_at=3600`, and no expiry; the file never expires and the owner's own password is denied | the file expires after the chosen hours and the password typed at upload opens it | not executed; depends on the assumed store escape rule | Sharing.BackslashPasswordNeverExpires | Sharing.SafeUploadOpensForOwner |

The as-written halves are Sharing.PipeTruncatesPassword, Sharing.PipePasswordLockout
and Sharing.PipePasswordExample for the pipe, and Sharing.BackslashSwallowsExpiry,
Sharing.BackslashPasswordNeverExpires and Sharing.BackslashPasswordExample for the
backslash. The corrected half is the gate Sharing.SafeUploadEnabled, which also
refuses `|` and backslashes, together with Sharing.SafeUploadOpensForOwner. The
model of the page, Upload.UploadPage, keeps the gate as app.py:93 writes it.

## Left out

- Rendering: page text, the info, success and error boxes, the code blocks, the download button, the QR codes and their `BytesIO` buffers, and the footer. None of them affects a decision.
- The store's API calls, its upload options (folder, file names), `secure_url`, `original_filename` and any exception other than not-found. These are inputs or outcomes of calls this model cannot see. Only the not-found exception on lookup, and any exception on upload, are modelled.
- Sharing.StoreContext: the store's decoding of the metadata string is not in app.py. It is assumed to split at `|`, then split each field at its first `=`, with later keys overriding earlier ones; a backslash before `|` or `=` makes that character literal and is dropped. A backslash before any other character is kept as it is; an escaped backslash (two in a row) is not given a meaning of its own, since the store's rule for it is not known.
- Quoting.Param: the framework's query-string parsing is not in app.py. It is assumed to follow Python's `parse_qsl` with blank values kept and the last value of a repeated name winning. URL fragments are not modelled.
- Sharing.ContextRoundTrip: requires a password without `|` or a backslash. Under the assumed store decoding, `|` splits the password into extra fields and a backslash can escape a separator (see Findings).
- Sharing.AccessBeforeExpiry: requires a password without `|` or a backslash. For `a|rest` with no `=` in `rest`, Sharing.PipePasswordLockout states what happens instead, and for a final backslash Sharing.BackslashPasswordNeverExpires. A password with `=` after a `|` can add or override keys; that case is not stated.
- Sharing.ExpirySurvivesPassword: requires a password without a backslash. A final backslash removes the expiry key (Sharing.BackslashSwallowsExpiry).
- Sharing.ExpiredAfterUpload: requires a password without a backslash, for the same reason; Sharing.BackslashPasswordNeverExpires states the final-backslash case.
- Sharing.OwnerGrantedAtUpload: requires a password without `|` or a backslash, as Sharing.AccessBeforeExpiry does.
- Sharing.PipeTruncatesPassword: requires no backslash in the password, and Sharing.PipePasswordLockout does too. A backslash inside the password, such as one before `=` that the store turns into a plain `=`, is not stated beyond the final-backslash case.
- Access.ParseExpiry: reads only integer text (optional sign, digits, surrounding whitespace). `float()` also accepts decimals, exponents, underscores and `inf`. Those inputs, the `OverflowError` on `inf` and the rounding of large values are not modelled.
- Text.Strip: treats only the ASCII whitespace characters space, tab, line feed, carriage return, vertical tab and form feed as whitespace. The other characters Python strips (`\x1c`-`\x1f`, `\x85`, `\xa0` and the remaining Unicode spaces) are not.
- Quoting.Quote: works on the bytes of the id. The UTF-8 encoding of a text id is not modelled.
- The clock is an integer of whole seconds. The fractional part of `time.time()` in `int(time.time() + expiry_hours * 3600)` is not modelled.
- The upload's "time left" line at app.py:133 is display only and is not modelled.
- A store result without `public_id` (app.py:117 returning `None`) is not modelled.
