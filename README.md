# slugren and the configuration store, in Dafny

This project models two parts of the buvis scripts:

- The renaming logic of `bin/slugren.py`, written as pure functions:
  - `normalize`: strip whitespace, slugify, turn `_` into `-`, collapse runs of `-`, trim `.` and `-` from both ends, transliterate.
  - Splitting the `--path` argument into paths, honouring `\ ` escapes.
  - Composing the renamed file name from the path's stem and suffix.
  - For `.eml` files, dropping the leading timestamp and the reply/forward prefixes from the stem.
  - Building the final e-mail name from the received timestamp.
- The `ConfigAdapter` of `src/buvis/adapters/config/config.py`, written as a class:
  - A map field that `SetKeyValue` updates in place and `GetKeyValue` reads.
  - `GetKeyValue` answers either with the stored value or with a 404 that names the key.

Files:

- `py_str.dfy` (module `PyStr`): the Python string operations the script relies on, with their exact Python behaviour:
  - `str.replace`: left to right, non-overlapping.
  - `str.split` with a one-character separator: empty pieces are kept.
  - `str.join`.
  - `lstrip`/`rstrip`/`strip` with a character set.
- `pure_path.dfy` (module `PurePath`): the POSIX `pathlib` properties `name`, `stem` and `suffix`.
- `slugren.dfy` (module `Slugren`): the renamer.
- `config.dfy` (module `Config`): the configuration store.

The third-party `slugify` and `unidecode` functions are parameters of the model, passed as a `Libraries` value. Wherever a property depends on them, the lemma's `requires` states exactly what it needs:

- `FixesAscii`: `unidecode` leaves ASCII text unchanged.
- `IsAscii`: `slugify` returns ASCII.

The operating system (`platform.system()`) is a boolean parameter, and so is the received timestamp string of an e-mail.

## Model

| member | source | states |
|---|---|---|
| PyStr.Replace | bin/slugren.py:52 | `str.replace` with a non-empty pattern; a string that does not contain the pattern is returned unchanged |
| PyStr.ReplaceChars | bin/slugren.py:40 | every character of a replacement result comes from the input or from the replacement text |
| PyStr.ReplaceCharRemoves | bin/slugren.py:59 | replacing a character by a text that does not contain it removes every occurrence of that character |
| PyStr.ReplaceAroundSeparator | bin/slugren.py:52-56 | replacing a pattern that does not contain the separator acts on each side of the separator separately |
| PyStr.ContainsChar | bin/slugren.py:40 | a one-character pattern occurs in a string exactly when that character does |
| PyStr.ContainsInSuffix | bin/slugren.py:42 | a pattern found in a suffix of a string is found in the string |
| PyStr.ContainsInPrefix | bin/slugren.py:42 | a pattern found in a prefix of a string is found in the string |
| PyStr.Split | bin/slugren.py:53 | `str.split(sep)` gives one more piece than there are separators, and no piece contains the separator |
| PyStr.SplitConcat | bin/slugren.py:53 | the split of `a + sep + b` is the split of `a` followed by the split of `b` |
| PyStr.Join | bin/slugren.py:53 | definition of `sep.join(pieces)`; `JoinSplit` and `SplitJoin` prove it inverse to `Split` |
| PyStr.JoinSplit | bin/slugren.py:53 | joining the pieces of a split with the separator gives back the original string |
| PyStr.SplitWithoutSeparator | bin/slugren.py:53 | a string without the separator splits into itself alone |
| PyStr.SplitAtFirst | bin/slugren.py:53 | the split of `a + sep + b`, where `a` has no separator, is `a` followed by the split of `b` |
| PyStr.SplitJoin | bin/slugren.py:53 | splitting the join of separator-free pieces gives those pieces back |
| PyStr.ReplaceEach | bin/slugren.py:55-56 | definition: `p.replace(pat, rep)` applied to every piece, as the loop body does for each path |
| PyStr.ReplaceJoin | bin/slugren.py:52-56 | replacing in every piece and then joining equals joining and then replacing, when the pattern has no separator |
| PyStr.LStripLength | bin/slugren.py:44 | `lstrip(chars)` removes exactly the longest prefix made of those characters |
| PyStr.RStripLength | bin/slugren.py:44 | `rstrip(chars)` removes exactly the longest suffix made of those characters |
| PyStr.LStrip | bin/slugren.py:44 | definition of `lstrip(chars)`: the input after the prefix measured by `LStripLength` |
| PyStr.RStrip | bin/slugren.py:44 | definition of `rstrip(chars)`: the input before the suffix measured by `RStripLength` |
| PyStr.Strip | bin/slugren.py:37 | definition of `lstrip(chars).rstrip(chars)`; `StripShape`, `StripContains` and `StripUnchanged` state what it keeps |
| PyStr.StripShape | bin/slugren.py:37 | a stripped string is a contiguous part of the input, every removed character is in the set, and the result neither starts nor ends with one |
| PyStr.StripContains | bin/slugren.py:44 | stripping introduces no character and no pattern that was not already present |
| PyStr.StripUnchanged | bin/slugren.py:44 | a string whose ends are outside the set is left unchanged |
| PurePath.Parts | bin/slugren.py:60 | the components pathlib keeps are exactly the pieces that are neither empty nor `.` |
| PurePath.PartsConcat | bin/slugren.py:60 | the kept components of two lists are those of each, in order |
| PurePath.Name | bin/slugren.py:60 | `Path(p).name` is one of the `/`-separated pieces of the path (or empty), contains no `/` and is never `.` |
| PurePath.NameOfLastComponent | bin/slugren.py:60 | the name of `n` and of `d/n` is `n`, for every component `n` that is non-empty, has no `/` and is not `.` |
| PurePath.NameIgnoresTrailingSlash | bin/slugren.py:60 | a trailing `/` does not change the name |
| PurePath.RFind | bin/slugren.py:62 | the position of the last occurrence of a character, or -1 when there is none |
| PurePath.Suffix | bin/slugren.py:62 | definition of `.suffix`: from the last dot on, when that dot is neither the first nor the last character |
| PurePath.Stem | bin/slugren.py:63 | definition of `.stem`: the name without its suffix |
| PurePath.StemSuffix | bin/slugren.py:62-65 | `stem + suffix == name`; a suffix is a dot followed by at least one non-dot character; a name has a suffix exactly when it has a dot after its first character and does not end with a dot |
| Slugren.CollapseHyphens | bin/slugren.py:42 | collapsing never lengthens the text and keeps its first character |
| Slugren.CollapseNoDoubleHyphen | bin/slugren.py:42 | after `re.sub("-{2,}", "-", …)` no `--` is left |
| Slugren.CollapseKeepsOthers | bin/slugren.py:42 | collapsing only deletes hyphens: every other character stays, in order |
| Slugren.CollapseChars | bin/slugren.py:42 | collapsing introduces no new character |
| Slugren.CollapseUnchanged | bin/slugren.py:42 | a text without `--` is left unchanged |
| Slugren.CollapseMerge | bin/slugren.py:42 | a run of two hyphens collapses to the same text as a single hyphen |
| Slugren.CollapseIdempotent | bin/slugren.py:42 | collapsing twice equals collapsing once |
| Slugren.Tidy | bin/slugren.py:40-44 | definition of the post-slugify steps: `_` to `-`, collapse, strip `.-`; the lemmas below characterise its results |
| Slugren.Normalize | bin/slugren.py:35-48 | definition of `normalize` with `slugify` and `unidecode` as parameters; `NormalizeTidied` states its result |
| Slugren.TidyIsTidied | bin/slugren.py:40-44 | after the post-slugify steps the text has no `_`, no `--`, and no `.` or `-` at either end |
| Slugren.TidyFixpoints | bin/slugren.py:40-44 | the post-slugify steps leave a text unchanged exactly when it already has these three properties |
| Slugren.TidyIdempotent | bin/slugren.py:40-44 | applying the post-slugify steps twice equals applying them once |
| Slugren.TidyKeepsAscii | bin/slugren.py:40-44 | the post-slugify steps keep ASCII text ASCII |
| Slugren.NormalizeTidied | bin/slugren.py:35-48 | if `unidecode` fixes ASCII and `slugify` returns ASCII, `normalize` gives the tidied slug, so its result has no `_`, no `--` and no `.`/`-` at either end |
| Slugren.SplitPathArgument | bin/slugren.py:51-59 | definition of the paths named by `--path`: none for an empty argument; otherwise park escaped spaces, split at spaces, restore them, and off Windows delete backslashes |
| Slugren.PlaceholderAfterFirst | bin/slugren.py:52 | when the argument does not start with an escaped space, the replaced text starts with `!@#` only if the argument already does |
| Slugren.PlaceholderRoundTrip | bin/slugren.py:52-56 | for an argument without `!@#`, parking escaped spaces as `!@#` and restoring them equals replacing `\ ` by a space directly |
| Slugren.SplitPathArgumentJoin | bin/slugren.py:52-59 | for an argument without `!@#`, the paths joined with spaces give the argument with `\ ` unescaped; off Windows, every other backslash is also removed |
| Slugren.CountConcat | bin/slugren.py:53 | the number of occurrences of a character in a concatenation is the sum of the counts in its parts |
| Slugren.ParkedSpaces | bin/slugren.py:52-53 | after parking the escaped spaces, the spaces left are exactly the unescaped ones |
| Slugren.SplitPathArgumentCount | bin/slugren.py:51-59 | an empty argument yields no path; any other yields one path more than it has unescaped spaces |
| Slugren.SplitPathArgumentBackslashes | bin/slugren.py:51-59 | off Windows, no path contains a backslash; on Windows, the paths are the restored pieces unchanged (none for an empty argument) |
| Slugren.RenamedName | bin/slugren.py:62-65 | definition of the renamed name; `RenamedNameTidied` states its shape |
| Slugren.NoDoubleHyphenAroundDot | bin/slugren.py:63 | joining two texts without `--` by a dot creates no `--` |
| Slugren.DotJoinTidied | bin/slugren.py:63 | joining two tidied texts by a dot gives a text with no `_` and no `--` |
| Slugren.RenamedNameTidied | bin/slugren.py:62-65 | the renamed name is `normalize(stem) + "." + normalize(suffix)` when there is a suffix and `normalize(stem)` otherwise; both parts are tidied, and the whole name has no `_` and no `--` |
| Slugren.DigitRun | bin/slugren.py:75 | the longest prefix of ASCII digits |
| Slugren.TimestampLength | bin/slugren.py:75-80 | `re.match("20\d+", stem)` matches exactly when the stem starts with `20` and a digit; the match covers all the digits that follow |
| Slugren.RepeatedPrefixLength | bin/slugren.py:83-85 | after removing the leading repeats of a pattern, the rest does not start with it |
| Slugren.StripLeadingRepeats | bin/slugren.py:83-85 | `re.sub("^(p)+", "", s)` never lengthens the text and leaves it not starting with `p` |
| Slugren.LeadingRepeatsRemoved | bin/slugren.py:83-85 | what `re.sub("^(p)+", "", s)` removes is a whole number of copies of `p` |
| Slugren.StripDecomposes | bin/slugren.py:83-85 | the text is the removed copies of the pattern followed by the result |
| Slugren.ThreeStripsRemoved | bin/slugren.py:83-85 | three successive removals peel off three runs of repeats, in order |
| Slugren.StripReplyPrefixes | bin/slugren.py:83-85 | definition: removes leading runs of `re-`, then `fw-`, then `fwd-`; `ReplyPrefixesRemoved` states the result |
| Slugren.ReplyPrefixesRemoved | bin/slugren.py:83-85 | the remainder never starts with `fwd-`, and the input is some `re-`s, then some `fw-`s, then some `fwd-`s, then the remainder |
| Slugren.StripNoCopy | bin/slugren.py:83-85 | a text that does not start with the pattern is left unchanged |
| Slugren.StripOneCopy | bin/slugren.py:83-85 | a text that starts with exactly one copy of the pattern loses that copy |
| Slugren.ReplyPrefixOrderRe | bin/slugren.py:83-85 | because the prefixes are removed in a fixed order, `fw-re-x` becomes `re-x` |
| Slugren.ReplyPrefixOrderFw | bin/slugren.py:83-85 | likewise `fwd-fw-x` becomes `fw-x` |
| Slugren.EmailRemainder | bin/slugren.py:75-85 | definition of the e-mail remainder: drop the timestamp, normalise, strip reply/forward prefixes; `EmailRemainderShape` states its shape |
| Slugren.ContainsAt | bin/slugren.py:83-85 | a pattern found at a position is contained in the text |
| Slugren.StripRepeatsKeepsSlugTail | bin/slugren.py:83-85 | removing leading copies of a pattern that ends with `-` keeps a slug without `_` or `--`, without a leading `-`, and without a trailing `.` or `-` |
| Slugren.ReplyStripKeepsSlugTail | bin/slugren.py:83-85 | the three prefix removals keep that slug shape |
| Slugren.EmailRemainderShape | bin/slugren.py:75-85 | under the library assumptions, the e-mail remainder has no `_` or `--`, does not start with `-`, does not end with `.` or `-`, and does not start with `fwd-` |
| Slugren.FinalNameShape | bin/slugren.py:62-113 | for a `.eml` path with a non-empty received timestamp the name is `received + "-" + remainder + ".eml"`; otherwise it is the renamed name |
| Slugren.FinalName | bin/slugren.py:62-113 | definition of the new name; `FinalNameShape` and `EmailNameSlug` state its shape |
| Slugren.EmailNameSlug | bin/slugren.py:75-113 | under the library assumptions, an e-mail's new name is `received-` + a slug with no `_` or `--`, no leading `-` or `fwd-`, no trailing `.` or `-` + `.eml` |
| Config.Truthy | src/buvis/adapters/config/config.py:18 | definition of Python truthiness for the stored values |
| Config.Lookup | src/buvis/adapters/config/config.py:17-21 | definition of the answer to `get_key_value`; the lemmas below state its meaning |
| Config.LookupSucceeds | src/buvis/adapters/config/config.py:17-21 | a lookup succeeds exactly when the key is stored with a truthy value, and then returns that value; every failure looks like a miss |
| Config.EmptyStoreMisses | src/buvis/adapters/config/config.py:9 | in an empty store every key gets code 404 with the message `<key> not found in config store` |
| Config.SetThenGet | src/buvis/adapters/config/config.py:14-19 | after storing a truthy value, getting its key returns that value with the success code |
| Config.SetFalsyMisses | src/buvis/adapters/config/config.py:18-21 | a key stored with a falsy value (`None`, `False`, `0`, `""`, `[]`) is reported as not found |
| Config.SetLeavesOthers | src/buvis/adapters/config/config.py:14-15 | storing under one key does not change the answer for any other key |
| Config.Absolute | src/buvis/adapters/config/config.py:12 | definition of `Path(p).absolute()` relative to a working-directory parameter |
| Config.ConfigAdapter.constructor | src/buvis/adapters/config/config.py:8-12 | a new adapter has an empty store; the config file path is set, made absolute, only when a non-empty path is given |
| Config.ConfigAdapter.SetKeyValue | src/buvis/adapters/config/config.py:14-15 | stores or overwrites the key's entry and changes nothing else |
| Config.ConfigAdapter.GetKeyValue | src/buvis/adapters/config/config.py:17-21 | answers the store's lookup for the key without changing the adapter: success with the stored value exactly when it is truthy, otherwise 404 with `<key> not found in config store` |
| Config.SetThenGetOnAdapter | src/buvis/adapters/config/config.py:8-21 | on a fresh adapter a key first gets a 404, then, once a truthy value is set, gets that value |

## Left out

- `slugify` (python-slugify) and `unidecode` are not modelled. They are parameters. The lemmas that look past them assume that `unidecode` leaves ASCII unchanged and that `slugify` returns ASCII.
- Windows `pathlib` is not modelled. `name`, `stem` and `suffix` follow the POSIX flavour. The Windows branch of the path splitting is modelled only as keeping the backslashes.
- TimestampLength: treats only ASCII `0`-`9` as `\d`. Python's `\d` on `str` also matches other Unicode decimal digits.
- Config.ConfigAdapter.constructor: `Path.absolute()` is modelled as prefixing the working directory (a parameter) to a relative path, without normalisation. When no path is given the attribute is absent in Python; here it is `None`.
- Config keys are modelled as strings. Values are a small datatype (`None`, booleans, integers, strings, lists), which is enough to model Python truthiness.
- The response type's success code is abstract (`Ok`). `AdapterResponse` is not part of this model.
- Parsing the e-mail's `Date` header and converting it to a UTC `%Y%m%d%H%M%S` string (`bin/slugren.py:70-74`) involves file I/O and the clock. The received timestamp is an input string.
- Reading the e-mail body, MIME parts and BeautifulSoup text extraction (`bin/slugren.py:87-110`) are left out. They only print text and do not affect the new name.
- Argument parsing (`bin/slugren.py:24-32`) and `os.rename` (`bin/slugren.py:114`) are I/O. The model computes the new file name instead of renaming the file.
- The per-path loop itself (`bin/slugren.py:55`) only repeats the per-path computation with I/O. The model gives the list of paths and the name for one path.
- PyStr.Replace: an empty pattern is not modelled (`requires pat != []`). The script only replaces non-empty patterns.
- The other scripts and packages of the repository (the readerctl tools, the junk cleaner) talk to the network or the file system and are not part of this model.
