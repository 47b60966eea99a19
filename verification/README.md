# EnumQuery in Dafny

A model of the PHP class `EnumQuery`, a thin client for ENUM lookups
(E.164 Number Mapping, RFC 6116). The class itself does no DNS work. For
each domain suffix it starts an external Perl script that resolves the
NAPTR records of a telephone number. Then it turns the script's exit code
and its `|`-separated output lines into a result record for that domain.

The model covers everything the class decides for itself:

- **`PhpStrings`** (`php_strings.dfy`) models the PHP built-ins the class
  relies on. These are `trim` with its default character list (space, tab,
  line feed, carriage return, NUL, vertical tab), `str_replace(' ', '', …)`,
  and `explode` on `|`. Each comes with a characterisation: `trim` is the
  unique cut of a string into trimmable padding around a trimmed middle.
  Space removal distributes over concatenation, so it keeps order. The class
  never calls `implode`; it is modelled only as the inverse of `explode`,
  to state what `explode` does.
- **`Normalization`** (`normalization.dfy`) models `_normalizeSearchString`
  and `_normalizeDomain`. The first trims, drops every space, prepends `+`
  when missing, and throws unless the result matches `^\+\d+$`. The second
  trims and prepends `.` when missing. PCRE's `$` also matches just before
  a final line feed, and the model includes that. It then proves that this
  never matters here, because the candidate string is trimmed.
- **`OutputParser`** (`output_parser.dfy`) models `_parseOutput`. Each line
  becomes a record with the fields `order`, `pref`, `service`,
  `servicefound` and `uri`. A field is the trimmed piece at that position,
  or `""` where the line has fewer pieces. The `foreach` loop is the method
  `ParseOutput`, whose postcondition is `parsed == ParsedOutput(output)`.
  `ParsedOutput` is the function `ExecuteQuery` uses.
- **`EnumQuery`** (`enum_query.dfy`) models the rest of the class:
  - the constructor's option checks (`_getOption`, `_getModuleDir`,
    `_getScriptPath`);
  - the exit-code switch of `_executeQuery`;
  - `queryDomain`;
  - `query`, whose `foreach` loop builds the result array. It is a method
    proved against the specification function `Fill`: the array after
    assigning a value to each domain in turn.

The object's fields are set once by the constructor and never change. So
the object is a value, `Config`, built by `New`. The result array of `query`
is a PHP ordered array with string keys. It is modelled as `QueryResult`:
the keys in insertion order, plus a map from each key to its value.
`Assign` has PHP's semantics: a new key goes at the end, and an existing
key keeps its place.

The external script is a parameter, `script: Invocation -> ScriptRun`. It
maps the module directory, script path, number and domain to an exit code
and the output lines. The filesystem that the constructor inspects is also
a parameter, `FileSystem`, holding sets of directories, regular files and
executables.

Where the documentation and the code disagree, the model follows the code.
The doc comment of `_normalizeDomain` (lib/EnumQuery.php:256) says that it
removes spaces, but the code only trims. Any exit code other than 1 and 2
counts as success, not only 0.

## Model

| member | source | states |
|---|---|---|
| `PhpStrings.TrimEnd` | lib/EnumQuery.php:263 | `trim`'s right edge: stepping back over trimmable characters stops at 0 or after a non-trimmable character |
| `PhpStrings.TrimEndDropsPadding` | lib/EnumQuery.php:263 | every character dropped at the right edge is trimmable |
| `PhpStrings.TrimEndAt` | lib/EnumQuery.php:263 | the right edge is exactly the position after the last non-trimmable character |
| `PhpStrings.TrimStart` | lib/EnumQuery.php:263 | `trim`'s left edge: stepping over trimmable characters stops at the right edge or at a non-trimmable character |
| `PhpStrings.TrimStartDropsPadding` | lib/EnumQuery.php:263 | every character dropped at the left edge is trimmable |
| `PhpStrings.TrimStartAt` | lib/EnumQuery.php:263 | the left edge is exactly the position of the first non-trimmable character |
| `PhpStrings.Trim` | lib/EnumQuery.php:263 | the result of `trim` is no longer than the input and has no trimmable character at either end |
| `PhpStrings.TrimDropsPadding` | lib/EnumQuery.php:263 | `trim`'s result is the infix of the input between its two edges, and every character outside that infix is one of the six trimmable characters |
| `PhpStrings.TrimUnique` | lib/EnumQuery.php:241 | whenever a string is trimmable padding around a trimmed middle, `trim` returns exactly that middle |
| `PhpStrings.TrimOfTrimmed` | lib/EnumQuery.php:263 | `trim` leaves a string with no trimmable character at its ends unchanged |
| `PhpStrings.TrimIdempotent` | lib/EnumQuery.php:263 | `trim` applied twice equals `trim` applied once |
| `PhpStrings.RemoveSpaces` | lib/EnumQuery.php:241 | `str_replace(' ', '', $s)` leaves no space and never lengthens the string |
| `PhpStrings.RemoveSpacesKeepsOthers` | lib/EnumQuery.php:241 | every character other than a space occurs as often after the removal as before |
| `PhpStrings.RemoveSpacesAppend` | lib/EnumQuery.php:241 | removing spaces from a concatenation concatenates the results, so the remaining characters keep their order |
| `PhpStrings.RemoveSpacesKeepsEnds` | lib/EnumQuery.php:241 | removing spaces from a trimmed string leaves it trimmed |
| `PhpStrings.RemoveSpacesNoSpace` | lib/EnumQuery.php:241 | a string without spaces is unchanged |
| `PhpStrings.Explode` | lib/EnumQuery.php:217 | `explode('|', $line)` always yields at least one piece |
| `PhpStrings.ImplodeExplode` | lib/EnumQuery.php:217 | no piece of `explode` contains `|`, and joining the pieces with `|` gives the line back |
| `PhpStrings.ExplodeImplode` | lib/EnumQuery.php:217 | exploding the `|`-join of a non-empty list of `|`-free pieces gives that list back |
| `Normalization.MatchesNumberPattern` | lib/EnumQuery.php:247 | definition: `preg_match('/^\+\d+$/')`, that is `+` and one or more ASCII digits, optionally followed by one final line feed, which PCRE's `$` allows |
| `Normalization.CleanSearchString` | lib/EnumQuery.php:241 | after trimming and removing spaces, no space and no trimmable end character remains |
| `Normalization.WithPlus` | lib/EnumQuery.php:243-245 | the result starts with `+`; the input is kept exactly when it already starts with `+`, and otherwise `+` is prepended to it |
| `Normalization.NormalizeSearchString` | lib/EnumQuery.php:239-252 | succeeds exactly when the cleaned string, with `+` prepended unless it starts with `+`, is `+` followed by one or more ASCII digits; the result is then that string; otherwise the failure message is "Invalid search string '…'" quoting it |
| `Normalization.NoFinalLineFeed` | lib/EnumQuery.php:247 | the candidate never ends in a line feed, so `^\+\d+$` with PCRE's end-of-line allowance accepts exactly the `+digits` strings |
| `Normalization.NormalizeSearchStringIdempotent` | lib/EnumQuery.php:239-252 | normalising a normalised number returns it unchanged |
| `Normalization.NormalizeSearchStringTrimsAndAddsPlus` | lib/EnumQuery.php:241-245 | `"\t42 07\n"` normalises to `"+4207"` |
| `Normalization.NormalizeSearchStringKeepsPlus` | lib/EnumQuery.php:243-244 | `"+1 2"` normalises to `"+12"`; no second `+` is added |
| `Normalization.NormalizeSearchStringRejects` | lib/EnumQuery.php:247-249 | `""` and `"++1"` are rejected with the messages quoting `+` and `++1` |
| `Normalization.NormalizeDomain` | lib/EnumQuery.php:261-269 | the result starts with `.`; it is the trimmed domain when that starts with `.`, and `.` followed by the trimmed domain otherwise |
| `Normalization.NormalizeDomainIdempotent` | lib/EnumQuery.php:261-269 | normalising a normalised domain returns it unchanged |
| `OutputParser.FieldAt` | lib/EnumQuery.php:220-224 | definition: `$fields[k]`, where an undefined index reads as NULL and `trim(NULL)` is `""` |
| `OutputParser.ParseLine` | lib/EnumQuery.php:217-225 | definition: the per-line body of `_parseOutput`, a record of the trimmed fields 0 to 4 of `explode('|', $line)` |
| `OutputParser.ParseLineOfPieces` | lib/EnumQuery.php:217-225 | for a line made of `|`-free pieces, field k of the record is the trimmed piece k, or `""` when there is no piece k |
| `OutputParser.ParseLineOfFiveFields` | lib/EnumQuery.php:217-225 | a line of five trimmed `|`-free fields parses to exactly those five fields |
| `OutputParser.ParseLineIgnoresExtraFields` | lib/EnumQuery.php:217-225 | pieces after the fifth do not change the record |
| `OutputParser.ParseLineWithoutSeparator` | lib/EnumQuery.php:220-224 | a line without `|` fills `order` with the trimmed line and leaves the other four fields `""` |
| `OutputParser.ParsedOutput` | lib/EnumQuery.php:213-229 | definition: `_parseOutput`'s result, one `ParseLine` record appended per output line; `ExecuteQuery` returns it |
| `OutputParser.ParseLines` | lib/EnumQuery.php:215-228 | appending one parsed record per line gives exactly one record per line |
| `OutputParser.ParseLinesAt` | lib/EnumQuery.php:216-226 | record i of the appended list is the parse of line i |
| `OutputParser.ParsedOutputAt` | lib/EnumQuery.php:213-229 | `_parseOutput`'s result has one record per line, and record i is `ParseLine` of line i |
| `OutputParser.ParsedOutputCharacterised` | lib/EnumQuery.php:213-229 | any list with one record per line in which record i is the parse of line i is the parse of the output |
| `OutputParser.ParseOutput` | lib/EnumQuery.php:213-229 | the `foreach` loop returns exactly `ParsedOutput(output)`, the parse `_executeQuery` uses |
| `EnumQuery.GetOption` | lib/EnumQuery.php:278-285 | an option that is set gives its value, and an option that is not set gives NULL |
| `EnumQuery.IsFalsy` | lib/EnumQuery.php:170 | definition: PHP's `!$value` for an option, true for NULL, `""` and `"0"` (also used at :191) |
| `EnumQuery.ModuleDir` | lib/EnumQuery.php:167-179 | succeeds exactly when `enum_module_dir` is set, is neither `""` nor `"0"`, and names a directory; a missing or false option and a bad directory give their two messages |
| `EnumQuery.ScriptPath` | lib/EnumQuery.php:188-204 | succeeds exactly when `enum_script_path` is set, is neither `""` nor `"0"`, and names an executable regular file; a missing option, a non-existent file and an invalid file give their three messages |
| `EnumQuery.New` | lib/EnumQuery.php:54-60 | construction succeeds exactly when both checks pass, reports the module-directory error first, and keeps the options, both paths and the default domain list `['.e164.arpa']` |
| `EnumQuery.ExecuteQuery` | lib/EnumQuery.php:139-157 | exit code 1 fails with "Invalid query for number '…', domain '…'"; exit code 2 fails with "Not found - number '…', domain '…'"; any other code succeeds with the parsed output, which is empty when there are no lines |
| `EnumQuery.ExecuteQueryRecords` | lib/EnumQuery.php:152-157 | for any exit code other than 1 and 2 there is one record per output line, record i being the parse of line i |
| `EnumQuery.QueryDomain` | lib/EnumQuery.php:94-119 | an invalid number propagates as the normalisation error; otherwise the result holds the normalised number and domain, and `success` holds exactly when the lookup succeeded, with `records` on success and `reason` (the failure message) otherwise |
| `EnumQuery.QueryDomainReportsNormalForms` | lib/EnumQuery.php:96-102 | the reported number is `+digits` and a fixed point of number normalisation; the reported domain starts with `.` and is a fixed point of domain normalisation |
| `EnumQuery.QueryDomainOfNormalForms` | lib/EnumQuery.php:94-119 | querying with the already normalised number and domain gives the same result as with the raw inputs |
| `EnumQuery.FirstOccurrences` | lib/EnumQuery.php:78-81 | definition: the distinct domains of the list in the order of their first occurrence, the key order of the result array |
| `EnumQuery.FirstOccurrencesElements` | lib/EnumQuery.php:78-81 | the key order lists every domain of the list and none twice |
| `EnumQuery.FirstOccurrencesOfDistinct` | lib/EnumQuery.php:78-81 | without repeated domains the key order is the list itself |
| `EnumQuery.QueryResult.Assign` | lib/EnumQuery.php:80 | definition: `$result[$key] = $value` on a PHP ordered array; a new key goes at the end, an existing key keeps its place and gets the new value |
| `EnumQuery.DomainsToQuery` | lib/EnumQuery.php:74-76 | definition: an empty domain list is replaced by the object's default domains |
| `EnumQuery.QueryDefaultDomains` | lib/EnumQuery.php:30-32 | on an object built by the constructor, `query` without domains runs over `['.e164.arpa']` alone, and a non-empty list is used as given |
| `EnumQuery.Fill` | lib/EnumQuery.php:78-81 | definition: the array after `$result[$d] = value($d)` for each domain in turn, starting from `array()` |
| `EnumQuery.FillStep` | lib/EnumQuery.php:79-80 | one more iteration assigns the value of the next domain to the array |
| `EnumQuery.FillKeySet` | lib/EnumQuery.php:78-81 | the filled array has a key for exactly the domains of the list |
| `EnumQuery.FillKeyOrder` | lib/EnumQuery.php:78-81 | the keys are the distinct domains in the order of their first occurrence |
| `EnumQuery.FillValues` | lib/EnumQuery.php:78-81 | each key holds the value computed for that raw key |
| `EnumQuery.Query` | lib/EnumQuery.php:72-84 | with the default domains when none are given: the call throws exactly when there is a domain to query and the number is invalid, with the normalisation message; otherwise the result has one key per distinct raw domain, in first-occurrence order, each holding `queryDomain` of that domain |

## Left out

- Building the shell command, `escapeshellarg` and `exec` (lib/EnumQuery.php:134-137) are process I/O. They are replaced by the `Script` parameter, which gives the exit code and the output lines. `exec`'s removal of trailing whitespace from each line is part of that parameter. The parameter is total, so one error path is lost. `NormalizeDomain` keeps a NUL byte inside a domain, for example `"a\0b"` becomes `".a\0b"`. PHP then fails in `escapeshellarg` or `exec` with a fatal error (PHP 7) or a `ValueError` (PHP 8). Neither is an `Exception`, so the `catch` at lib/EnumQuery.php:111 does not turn it into a failure record. In the model, `QueryDomain` returns whatever the script parameter gives. Because the parameter is a function, the script is deterministic in the model: a domain repeated in `query`'s list runs the script again in PHP and keeps the last run's result (lib/EnumQuery.php:80), which the model can only show as the same value.
- The ENUM resolution itself (NAPTR lookup, reversed-digit query names, record ordering under RFC 6116) happens in the external Perl script. That script is not part of this model.
- The filesystem is reduced to three sets: directories, regular files and executables. `file_exists` means being in the first or second set. Symbolic links, permissions of the running user and other file types are not modelled.
- Option values are strings only. PHP's falsiness is modelled for `""` and `"0"`, and an unset option reads as NULL. Options of other PHP types (booleans, integers, arrays) are not modelled.
- PHP converts array keys that are canonical decimal integers (such as `"123"`) to integer keys. `QueryResult` keeps every key as a string. This does not change which keys are distinct, or their order.
- For a line with fewer than five pieces, `_parseOutput` reads an undefined index, which PHP reports with a warning. The warning is not modelled; the value, NULL trimmed to `""`, is.
- Strings are byte strings in PHP and `seq<char>` here. `\d` matches only the ASCII digits, as PCRE does without locale tables. No encoding is modelled.
- `query`'s type hint `Array $domains` (lib/EnumQuery.php:72), and the type error PHP raises for a non-array argument, are not modelled.
- bin/query.php is a command-line demo that reads `argv` and prints the result, so it is not part of this model.
