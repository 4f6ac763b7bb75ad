# Cron job metadata of EdgarCronBundle, in Dafny

This project models `AbstractCron`, the base class of the bundle's cron jobs. A job holds
five schedule fields (minute, hour, day of month, month, day of week), an optional override
of the whole cron expression, an argument map, a priority and an alias. The model covers:

- the effective cron expression (`getExpression`) and its override (`addExpression`);
- the argument string: the regular-expression scan of `addArguments`
  (`preg_match_all('/(?P<argument>\w+):(?P<value>[\w+\-]+)/', ...)`), the PHP array the scan
  fills, and the serialiser `getArguments`;
- the lookup `getArgument`, where the console input takes precedence over the stored map;
- the priority and alias accessors.

A job is the immutable datatype `Cron.CronJob`; each setter is a function returning the
updated job. A sequence of setter calls is `Cron.Apply`.

Modules:

- `Wrappers`: `Option`, standing in for PHP's `null`.
- `Text`: `Join` models `implode`. `Split` cuts a string at one character and serves only to state properties; the source never calls `explode`. Joining undoes splitting for every string. Splitting undoes joining for a non-empty list of parts that do not contain the separator.
- `ArgGrammar`: the character classes `\w` (ASCII `[A-Za-z0-9_]`) and `[\w+\-]`, and `Run`, the prefix a greedy quantifier consumes.
- `ArgScanner`: the scan. `MatchAt` is the match tried at one position. `MatchAtLongest` proves that it returns the longest prefix matching the pattern, which is the match PCRE's backtracking picks here. `Scan` tries each position in turn and resumes after each match. `Starts` gives the position of each match and proves that the matches occur in the subject in order, do not overlap, and that no match starts outside the captured spans.
- `ArgMap`: a PHP array with string keys as an ordered `seq<Arg>`. `Put` is `$a[$k] = $v`: a key already present keeps its position and takes the new value. `FromTokens` is the `foreach` loop that fills the array.
- `Arguments`: `Parse` and `Serialize`, the round trip, and worked examples.
- `Cron`: the job record and its accessors, plus "the last call wins" lemmas over call sequences.

Points where the code's behaviour is easy to misread:

- `getExpression` uses the override when it is PHP-truthy. So an override of `"0"` falls back to the fields, just like `null` and `""`.
- The argument map keeps insertion order, because PHP arrays do. A repeated key keeps its first position and takes its last value.
- `getAlias` is declared to return `string` but the alias starts as `null`. Calling it before `setAlias` is a PHP type error, not an empty result, so `GetAlias` requires an alias.
- `getArgument` returns the input's value whenever the input defines the argument, even if that value is `null`. It falls back to the stored map only when the input does not define the argument.
- `addArguments(null)` hands `null` to `preg_match_all`, which reads it as the empty string, so the map becomes empty.

## Model

| member | source | states |
|---|---|---|
| `Text.Join` | src/lib/Cron/AbstractCron.php:99 | `implode`: no parts give the empty string, and the joined string starts with the first part |
| `Text.JoinLast` | src/lib/Cron/AbstractCron.php:99 | the joined string of a non-empty list ends with the last part |
| `Text.JoinSplit` | src/lib/Cron/AbstractCron.php:99 | joining the pieces of a split string with the separator gives back the string |
| `Text.SplitJoin` | src/lib/Cron/AbstractCron.php:99 | splitting a joined non-empty list of separator-free parts gives back the parts |
| `ArgGrammar.Run` | src/lib/Cron/AbstractCron.php:113 | a greedy character-class quantifier takes a prefix inside the class that stops at the first character outside it |
| `ArgScanner.MatchAt` | src/lib/Cron/AbstractCron.php:113 | a match tried at the start of the subject covers exactly the text `name:value` of the well-formed argument it captures |
| `ArgScanner.MatchAtLongest` | src/lib/Cron/AbstractCron.php:113 | there is a match at a position exactly when some prefix there matches `\w+:[\w+\-]+`, and the match found is the longest such prefix |
| `ArgScanner.Scan` | src/lib/Cron/AbstractCron.php:113 | every captured name is in `\w+` and every captured value is in `[\w+\-]+`; where the captures sit in the subject is stated by `ArgScanner.Starts` |
| `ArgScanner.Starts` | src/lib/Cron/AbstractCron.php:113 | for every subject, each capture is the match made at its start position and is spelled out there; the captures come in order without overlapping; no match starts before the first, between two consecutive ones, or after the last |
| `ArgScanner.ScanSkip` | src/lib/Cron/AbstractCron.php:113 | a character outside `\w` never starts a match and is skipped |
| `ArgScanner.ScanToken` | src/lib/Cron/AbstractCron.php:113 | a well-formed `name:value` followed by a character that cannot extend the value is matched as exactly that token, and the scan resumes after it |
| `ArgScanner.ScanNoMatch` | src/lib/Cron/AbstractCron.php:113 | text with no colon followed by a value character yields no match |
| `ArgScanner.ScanEmpty` | src/lib/Cron/AbstractCron.php:113 | the scan finds nothing exactly when the pattern matches at no position of the subject |
| `ArgMap.Lookup` | src/lib/Cron/AbstractCron.php:182-183 | `isset($m[k])` holds exactly when `k` is a key, and then the result is that key's stored value |
| `ArgMap.LookupEntry` | src/lib/Cron/AbstractCron.php:182-183 | in an array with unique keys, the lookup of `k` gives `v` exactly when `k => v` is an entry |
| `ArgMap.Put` | src/lib/Cron/AbstractCron.php:117 | assigning to an existing key replaces the entry at that key's first position; assigning to a new key appends an entry |
| `ArgMap.PutNames` | src/lib/Cron/AbstractCron.php:117 | an assignment keeps the key order, and adds the key at the end only when it is new |
| `ArgMap.PutLookup` | src/lib/Cron/AbstractCron.php:117 | after `$m[k] = v` the key `k` holds `v` and every other key keeps its lookup |
| `ArgMap.PutEntries` | src/lib/Cron/AbstractCron.php:117 | an assignment adds no entry other than the assigned one and keeps keys unique |
| `ArgMap.FromTokens` | src/lib/Cron/AbstractCron.php:112-120 | the array filled by the `foreach` has unique keys, holds only scanned entries, and has exactly the scanned names as keys |
| `ArgMap.FromTokensLastWrite` | src/lib/Cron/AbstractCron.php:115-118 | a key holds `v` exactly when the last token for that key has value `v` |
| `ArgMap.FromTokensOrder` | src/lib/Cron/AbstractCron.php:115-118 | keys are listed in the order of their first token |
| `ArgMap.FromTokensUnique` | src/lib/Cron/AbstractCron.php:115-118 | assigning the entries of a unique-key array in order rebuilds that array |
| `Arguments.Parse` | src/lib/Cron/AbstractCron.php:110-122 | the parsed map has unique keys, names in `\w+` and values in `[\w+\-]+` |
| `Arguments.Serialize` | src/lib/Cron/AbstractCron.php:129-137 | the serialised text is empty exactly when the map is empty |
| `Arguments.SerializeSplit` | src/lib/Cron/AbstractCron.php:129-137 | for a non-empty map of well-formed entries, cutting the serialised text at single spaces gives the `key:value` tokens of the entries in map order |
| `Arguments.ScanSerialize` | src/lib/Cron/AbstractCron.php:113-136 | scanning the serialised text of well-formed entries finds exactly those entries, in order |
| `Arguments.ParseSerialize` | src/lib/Cron/AbstractCron.php:113-136 | round trip: parsing the serialised text of a unique-key, well-formed map gives back the same ordered map |
| `Arguments.SerializeParse` | src/lib/Cron/AbstractCron.php:113-136 | serialising a parsed map and parsing the result again yields the same map |
| `Arguments.ParseLastWrite` | src/lib/Cron/AbstractCron.php:113-118 | in a parsed map, key `k` holds `v` exactly when the last token for `k` in the text has value `v` |
| `Arguments.ParseOrder` | src/lib/Cron/AbstractCron.php:113-118 | parsed keys are ordered by their first token in the text |
| `Arguments.ParseNoMatch` | src/lib/Cron/AbstractCron.php:113-121 | text without a colon followed by a value character parses to the empty map |
| `Arguments.ParseEmpty` | src/lib/Cron/AbstractCron.php:113-121 | the parsed map is empty exactly when the pattern matches at no position of the text |
| `Arguments.ExampleThreeTokens` | src/lib/Cron/AbstractCron.php:113-136 | `foo:bar baz:1 qux:a-b` parses to `foo→bar, baz→1, qux→a-b` and serialises back to the same text |
| `Arguments.ExampleDuplicateKey` | src/lib/Cron/AbstractCron.php:113-121 | `a:1 b:2 a:3` parses to `a→3, b→2` |
| `Arguments.ExampleChained` | src/lib/Cron/AbstractCron.php:113 | `a:b:c` parses to `a→b` alone, because matches do not overlap |
| `Arguments.ExampleNoValue` | src/lib/Cron/AbstractCron.php:113-121 | `key:` parses to the empty map, because a value needs at least one character |
| `Arguments.ExampleFreeText` | src/lib/Cron/AbstractCron.php:113-121 | `not a valid token !!! key:` parses to the empty map |
| `Cron.NewJobExpression` | src/lib/Cron/AbstractCron.php:17-30 | with the default fields the expression is `* * * * *`, which consists of five `*` fields |
| `Cron.GetExpression` | src/lib/Cron/AbstractCron.php:88-103 | an override that is PHP-truthy (not `null`, `""` or `"0"`, the test at :98) is returned as it is; otherwise the result is the five fields joined by single spaces, and when no field holds a space, splitting it at spaces gives the fields back |
| `Cron.AddExpression` | src/lib/Cron/AbstractCron.php:154-157 | after `addExpression(e)`, `getExpression` returns `e` if `e` is PHP-truthy (neither `""` nor `"0"`), and otherwise the joined fields; nothing else changes |
| `Cron.ExpressionLastWins` | src/lib/Cron/AbstractCron.php:88-103 | a truthy override from the last `addExpression` call is the expression, whatever the fields and the other calls |
| `Cron.ExpressionFrame` | src/lib/Cron/AbstractCron.php:154-157 | only `addExpression` changes the override, and no setter changes the fields |
| `Cron.AddArguments` | src/lib/Cron/AbstractCron.php:110-122 | the new map has unique, well-formed entries, `null` gives the empty map, and nothing else changes |
| `Cron.AddArgumentsReplaces` | src/lib/Cron/AbstractCron.php:112-121 | the map does not depend on the map before the call: it is replaced, not merged |
| `Cron.AddArgumentsLastWrite` | src/lib/Cron/AbstractCron.php:113-121 | after `addArguments(s)` key `k` holds `v` exactly when the last token for `k` in `s` has value `v` |
| `Cron.ArgumentsLastWins` | src/lib/Cron/AbstractCron.php:110-122 | after several calls the map is the one parsed from the argument of the last `addArguments` call |
| `Cron.ArgumentsFrame` | src/lib/Cron/AbstractCron.php:121 | only `addArguments` changes the argument map |
| `Cron.GetArguments` | src/lib/Cron/AbstractCron.php:129-137 | the serialised arguments are empty exactly when the map is empty |
| `Cron.ArgumentsRoundTrip` | src/lib/Cron/AbstractCron.php:110-137 | `addArguments(getArguments())` leaves a job with a unique, well-formed map unchanged |
| `Cron.ArgumentsStable` | src/lib/Cron/AbstractCron.php:110-137 | every map stored by `addArguments` survives `addArguments(getArguments())` |
| `Cron.GetArgument` | src/lib/Cron/AbstractCron.php:177-187 | an argument the input defines wins, even a null one; otherwise the stored value is returned when the key is stored; otherwise null |
| `Cron.GetArgumentParsed` | src/lib/Cron/AbstractCron.php:177-187 | falling back to the stored map gives the value of the key's last token in the last argument string |
| `Cron.AddPriority` | src/lib/Cron/AbstractCron.php:144-147 | after `addPriority(p)`, `getPriority` returns `p`, and nothing else changes |
| `Cron.PriorityLastWins` | src/lib/Cron/AbstractCron.php:144-167 | after a sequence of calls, `getPriority` returns the value given to the last `addPriority` call |
| `Cron.PriorityFrame` | src/lib/Cron/AbstractCron.php:144-147 | only `addPriority` changes the priority |
| `Cron.DefaultPriorityKept` | src/lib/Cron/AbstractCron.php:36 | on a new job on which `addPriority` was never called, `getPriority` returns the default 100 |
| `Cron.SetAlias` | src/lib/Cron/AbstractCron.php:194-197 | after `setAlias(a)` the alias is set and `getAlias` returns `a`; nothing else changes |
| `Cron.GetAlias` | src/lib/Cron/AbstractCron.php:204-207 | returns the stored alias and requires one to be set, since returning the initial `null` from a `string` method is a type error |
| `Cron.AliasLastWins` | src/lib/Cron/AbstractCron.php:194-207 | the alias is the value given to the last `setAlias` call |
| `Cron.AliasFrame` | src/lib/Cron/AbstractCron.php:194-197 | only `setAlias` changes the alias |
| `Cron.AliasUnset` | src/lib/Cron/AbstractCron.php:41-42 | a new job on which `setAlias` was never called has no alias, so `getAlias` cannot be used |

## Left out

- `isDue` (src/lib/Cron/AbstractCron.php:75-81): it hands `getExpression()` to the external `Cron\CronExpression` library and checks it against the wall clock. That library's source is not part of this model, and neither is the clock.
- `run` (src/lib/Cron/AbstractCron.php:60-68): it runs a Symfony Console command and replaces a `null` status with `EdgarCronRepository::STATUS_OK`. Command execution and that repository are not part of this model.
- `initApplication` (src/lib/Cron/AbstractCron.php:49-52): it only wires in the Symfony application container.
- src/lib/Cron/CronInterface.php declares the methods but holds no behaviour.
- The console input is reduced to what `getArgument` asks of it: whether it defines the argument, and the value (a string or `null`). Array-valued console arguments are not modelled.
- PHP turns integer-like string keys (`"1"`) into integer keys. This changes neither the order nor the serialised text, so keys stay strings in the model.
- `\w` is ASCII `[A-Za-z0-9_]`. Locale-dependent meanings of `\w` are not modelled.
- `getExpression` performs no syntax check of the expression, and neither does the model. The expression is checked only by the external library inside `isDue`.
- The deprecation notice PHP 8.1 raises when `addArguments` passes `null` to `preg_match_all` is not modelled. Only the resulting empty map is.
