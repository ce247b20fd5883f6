# gosecret core, modelled in Dafny

This project models the core of gosecret, a password store that keeps each secret in its
own encrypted file:

- **The KV secret** (`pkg/gosecret/secrets/kv.go`). This is the default secret format:
  `key: value` lines followed by a free-text body.
  - `KVFormat` (kv_format.dfy) gives the secret as a value. It defines the effect of each
    mutator, the text `Bytes` writes and the line-by-line reading of `ParseKV`. It proves
    that reading the written text gives back the secret.
  - `Secrets.KV` (kv.dfy) is the mutable object with the same fields as the Go struct. Its
    methods have the Go loops, each proved against the value-level definitions.
- **The parse cascade** (`pkg/gosecret/secrets/secparse/parse.go`, module `SecParse`). It
  tries legacy MIME, then YAML, then KV, then plain text.
- **The storage backend registry** (`internal/backend/storage.go`, module `Backend`). It
  covers registration, detecting the backend of a store directory (with the sort by
  priority) and the `NewStorage`, `InitStorage` and `String` lookups.
- **The leaf store** (`internal/store/leaf`, module `Leaf`). It covers reading a secret,
  listing and reading revisions, initialising git storage and detecting the storage
  backend.
- **The helpers of the `generate` action** (`internal/action/generate.go`, module
  `Generate`):
  - splitting the arguments into key and length;
  - finding a password rule or a change URL for a secret name;
  - copying metadata into a secret;
  - the list filters behind shell completion.

Module `Strings` (strings.dfy) holds the parts of Go's `strings`, `sort` and `path`
packages that the core uses. Module `Errors` holds the error values, and `Wrappers` holds
`Option` and `Result`.

The parsers for MIME, YAML and plain text, the lookups in the password-rule database,
`passfile` and decryption are not part of this model. They appear as function-valued
parameters: `Parsers`, `lookupRule`, `lookupChangeURL`, `Store.passfile`, `Crypto.decrypt`
and `isDomain`. A storage backend is a value (`Backend.Storage`) that holds its files and
revisions. A loader is a value (`Backend.Loader`) that holds its priority and its
`Handles`, `New` and `Init` results.

## Model

| member | source | states |
|---|---|---|
| KVFormat.Values | pkg/gosecret/secrets/kv.go:121-125 | the key is lower-cased; found exactly when the lower-cased key is present; the values are that key's list, or empty when absent |
| KVFormat.Get | pkg/gosecret/secrets/kv.go:110-118 | same presence as `Values`; the first value when present, "" otherwise |
| KVFormat.SetKey | pkg/gosecret/secrets/kv.go:128-135 | refused exactly when the lower-cased key already holds more than one value, with that key in the error; otherwise the key holds exactly `[value]`, and the body and every other key are unchanged |
| KVFormat.AddValue | pkg/gosecret/secrets/kv.go:138-142 | the value is appended to the lower-cased key's list (created if missing); body and other keys unchanged |
| KVFormat.DelKey | pkg/gosecret/secrets/kv.go:145-150 | reports whether the lower-cased key was there; afterwards it is absent; body and other keys unchanged |
| KVFormat.WriteBody | pkg/gosecret/secrets/kv.go:206-209 | the data is unchanged, the body is the old body followed by the buffer, and the count is the buffer's length in UTF-8 bytes |
| KVFormat.WriteCountsBytes | pkg/gosecret/secrets/kv.go:206-209 | the count `Write` reports is the number of bytes the body grew by; it lies between the buffer's length in characters and four times that, and equals it exactly when the buffer is ASCII |
| KVFormat.BodyKeptByKeyOps | pkg/gosecret/secrets/kv.go:128-155 | `Body` is left alone by a successful `Set`, by `Add` and by `Del`, and `Write` extends it by the buffer |
| KVFormat.SetThenGet | pkg/gosecret/secrets/kv.go:110-135 | after a successful `Set`, `Get` of the same key returns the value set |
| KVFormat.SetIdempotent | pkg/gosecret/secrets/kv.go:128-135 | setting the same key to the same value twice equals setting it once |
| KVFormat.AddThenSet | pkg/gosecret/secrets/kv.go:128-142 | after `Add`, a `Set` of the same key is refused exactly when the key already held a value before the `Add` |
| KVFormat.SerializeStep | pkg/gosecret/secrets/kv.go:76-94 | one round of the key loop of `Bytes` appends what `SerializeFrom` puts before the remaining keys: the key's lines, then "\n" only if a body or another key follows |
| KVFormat.KeyLinesHead | pkg/gosecret/secrets/kv.go:81-89 | one `key: value` line, with "\n" only when more values of the key follow |
| KVFormat.SerializeWithoutKeys | pkg/gosecret/secrets/kv.go:74-97 | a secret without keys serialises to its body alone |
| KVFormat.LineLen | pkg/gosecret/secrets/kv.go:166 | the line `ReadString('\n')` returns is non-empty and fits in the input; it ends at the first "\n" or at the end of input |
| KVFormat.ColonKept | pkg/gosecret/secrets/kv.go:174-180 | trimming trailing "\n"s from a line with a ':' keeps the ':' before the end of the line |
| KVFormat.ParseBodyOnly | pkg/gosecret/secrets/kv.go:173-177 | input without ':' is added to the body unchanged and in order, and adds no keys |
| KVFormat.NoPairsAllBody | pkg/gosecret/secrets/kv.go:198-202 | input with no ':' gives a KV secret with no keys and the whole input as body (never an error) |
| KVFormat.ParseConcat | pkg/gosecret/secrets/kv.go:165-197 | reading is line by line: reading `x + y` with `x` ending in "\n" is reading `x`, then `y` |
| KVFormat.PairLinePieces | pkg/gosecret/secrets/kv.go:178-180 | a written `key: value` line loses only its "\n" to `TrimRight`, and `SplitN` cuts it at the key's end |
| KVFormat.PairLine | pkg/gosecret/secrets/kv.go:178-196 | a written `key: value` line of a canonical key and value reads back as that one pair |
| KVFormat.ParsePairLine | pkg/gosecret/secrets/kv.go:165-196 | a pair line followed by more input adds the pair, then reads the rest |
| KVFormat.ParseKeyLines | pkg/gosecret/secrets/kv.go:81-89 | all lines written for one key read back as all its values, in order |
| KVFormat.ParseSerializedFrom | pkg/gosecret/secrets/kv.go:74-97 | the lines of distinct, present keys followed by a body without ':' read back as exactly those keys' values plus that body |
| KVFormat.SortedKeys | pkg/gosecret/secrets/kv.go:100-107 | the sorted key list has no repeats, lists only present keys and covers every key |
| KVFormat.ParseSortedKeys | pkg/gosecret/secrets/kv.go:74-97 | reading everything `Bytes` writes, starting from an empty secret, gives back the canonical secret's data and body |
| KVFormat.RoundTrip | pkg/gosecret/secrets/kv.go:74-203 | `ParseKV(Bytes(k))` is `k` for every canonical secret (keys in ASCII, without ':', "\n" or surrounding space and in lower case; values without "\n" or surrounding space; at least one value per key; a body without ':') |
| KVFormat.TwoPairsThenBody | pkg/gosecret/secrets/kv.go:165-202 | two pair lines and a body without ':' read as both pairs, in order, and that body |
| KVFormat.DocExample | pkg/gosecret/secrets/kv.go:53-66 | the format's documented example reads as "hello" → ["world"], "gosecret" → ["secret"] with body "Yo\nHi" |
| Secrets.KV.constructor | pkg/gosecret/secrets/kv.go:18-22 | a new secret has no keys, an empty body and is not from MIME |
| Secrets.KV.WithData | pkg/gosecret/secrets/kv.go:25-35 | the secret holds the given pairs, body and converted flag |
| Secrets.KV.Keys | pkg/gosecret/secrets/kv.go:100-107 | the keys, each once, in ascending order |
| Secrets.KV.Bytes | pkg/gosecret/secrets/kv.go:74-97 | the output is the secret's serialisation (`Serialize`), which `RoundTrip` reads back |
| Secrets.KV.WriteKeys | pkg/gosecret/secrets/kv.go:76-94 | the outer loop writes all of the serialisation except the body |
| Secrets.KV.WriteEntry | pkg/gosecret/secrets/kv.go:77-93 | one round of the outer loop moves one key from what remains to be written into the buffer |
| Secrets.WriteKeyLines | pkg/gosecret/secrets/kv.go:81-89 | the inner loop appends exactly the key's `key: value` lines |
| Secrets.KV.Set | pkg/gosecret/secrets/kv.go:128-135 | the new state and the error are those of `SetKey`; a refused `Set` changes nothing |
| Secrets.KV.Add | pkg/gosecret/secrets/kv.go:138-142 | the new state is `AddValue` of the old; never an error |
| Secrets.KV.Del | pkg/gosecret/secrets/kv.go:145-150 | the new state and the result are `DelKey` of the old |
| Secrets.KV.Write | pkg/gosecret/secrets/kv.go:206-209 | the new state and count are `WriteBody` of the old, so the count is the buffer's byte length; never an error |
| Secrets.KV.FlagSurvivesEdits | pkg/gosecret/secrets/kv.go:211-214 | `FromMime` reports the converted flag the secret was made with, whatever `Set`, `Add`, `Del` and `Write` did to it since |
| Secrets.KV.SafeStr | pkg/gosecret/secrets/kv.go:217-219 | always "(elided)", whatever the secret holds |
| Secrets.ParseKV | pkg/gosecret/secrets/kv.go:158-203 | a fresh secret whose state is `ParseKVValue(input)`, not from MIME, and no error |
| SecParse.Parse | pkg/gosecret/secrets/secparse/parse.go:12-42 | MIME success wins; a permanent MIME error gives the plain secret plus that error; after a transient MIME miss a YAML success wins, otherwise the KV reading; an error comes back exactly when MIME failed permanently |
| SecParse.PermanentSkipsYaml | pkg/gosecret/secrets/secparse/parse.go:22-29 | after a permanent MIME error the YAML parser's answer does not matter |
| SecParse.PlainOnlyWhenPermanent | pkg/gosecret/secrets/secparse/parse.go:32-41 | without a permanent MIME error the plain parser's answer does not matter: the final plain fallback is unreachable |
| SecParse.NoPairsStillKV | pkg/gosecret/secrets/secparse/parse.go:32-36 | input that is neither MIME nor YAML and has no ':' comes back as a KV secret that is all body |
| Backend.SortByPriorityOrdered | internal/backend/storage.go:72-74 | the ids come out in ascending loader priority, each as often as it went in |
| Backend.FirstInOrder | internal/backend/storage.go:75-84 | the first handling id of the ordered list is a handler that no other handler precedes in priority |
| Backend.NoneInOrder | internal/backend/storage.go:75-85 | when no id in the list handles the path, no registered loader does |
| Backend.FirstHandling | internal/backend/storage.go:75-84 | the loop stops at the first id whose loader handles the path, or after all ids when none does |
| Backend.Registry.RegisterStorage | internal/backend/storage.go:51-55 | all three tables map the id and the name; a later registration of the same id overrides; `String` of the id is the name |
| Backend.Registry.DetectStorage | internal/backend/storage.go:58-86 | the result is one that `Detected` allows: a registered override is tried first and falls back to a new FS store; otherwise the lowest-priority handling loader opens the path, with no further candidate after it fails; otherwise a new FS store |
| Backend.Registry.IdsByPriority | internal/backend/storage.go:68-74 | every registered id, each once, in ascending priority |
| Backend.Registry.RegisteredIds | internal/backend/storage.go:68-71 | every registered id exactly once and no other id |
| Backend.Registry.NewStorage | internal/backend/storage.go:89-94 | the registered loader's `New` result; an unknown id gives an error wrapping `ErrNotFound` |
| Backend.Registry.InitStorage | internal/backend/storage.go:97-102 | the registered loader's `Init` result; an unknown id gives an error wrapping `ErrNotFound` |
| Backend.Registry.Name | internal/backend/storage.go:27-29 | the registered name, or "" for an id never registered (the zero value of Go's map lookup) |
| Backend.DetectionDeterministic | internal/backend/storage.go:68-84 | when no two loaders share a priority, detection has exactly one possible result |
| Backend.UnregisteredOverrideIgnored | internal/backend/storage.go:59-67 | an override naming an unregistered id changes nothing |
| Backend.PriorityOneBeforeTen | internal/backend/crypto/gpg/cli/loader.go:40-42 | when loaders of priority 1 and 10 (the fixture values of this gpg loader and of internal/backend/crypto/age/loader.go:33-35) both handle the path, the priority-1 loader opens it |
| Leaf.Store.Get | internal/store/leaf/read.go:17-37 | a missing file is `ErrNotFound` before decryption is tried; a failed decryption is `ErrDecrypt`; otherwise the plain secret, or the cascade's secret and error with show-parsing; the only error besides those two is a permanent MIME error |
| Leaf.Store.ListRevisions | internal/store/leaf/rcs.go:25-29 | the storage's revisions of the secret's file; `ErrNotSupported` without revision control |
| Leaf.Store.GetRevision | internal/store/leaf/rcs.go:31-50 | a storage failure comes back wrapped with the name and revision; a failed decryption is `ErrDecrypt`; otherwise the cascade's secret with any parse error dropped |
| Leaf.Store.GitInit | internal/store/leaf/rcs.go:16-23 | the storage becomes the one `InitStorage` creates for the context's backend at the store's path; on failure it is unchanged and the error is returned |
| Leaf.Store.InitStorageBackend | internal/store/leaf/storage.go:11-19 | detection runs under the store's alias; on success the storage is the detected one, on failure it is unchanged and the error is wrapped as "unknown storage backend" |
| Leaf.GetVersusGetRevision | internal/store/leaf/read.go:32-36 | on the same ciphertext, `GetRevision` always parses and never reports a parse error, while `Get` passes a permanent MIME error on and does not parse at all without show-parsing |
| Leaf.ReadsAreIndependent | internal/store/leaf/read.go:17-24 | with an injective `passfile`, changing the file of one secret leaves every other secret's `Get` unchanged |
| Generate.KeyAndLength | internal/action/generate.go:87-101 | the two arguments are only redistributed; the key moves to the length exactly when it is a lone number (`^\d+$`) |
| Generate.DeepestRuleFound | internal/action/generate.go:145-154 | the reference search: nothing is found exactly when no element has a rule; otherwise the element returned has that rule and no deeper element has one |
| Generate.PwRuleStep | internal/action/generate.go:146-151 | one loop round on a clean relative name: the rule of `path.Base` if it has one, else what its parent `path.Dir` yields (that the parent is "." or a shorter clean name is `CleanParent`) |
| Generate.CleanParent | internal/action/generate.go:151 | `path.Dir` of a clean relative name is "." or a shorter clean relative name |
| Generate.RootedBase | internal/action/generate.go:147 | `path.Base` of a clean rooted name is that of its relative part |
| Generate.RootedDir | internal/action/generate.go:151 | `path.Dir` of a clean rooted name is "/" or "/" followed by its relative part's parent |
| Generate.PwRuleStepRooted | internal/action/generate.go:146-151 | one round of the corrected loop on a clean rooted name agrees with the reference, and the parent is "/" or a shorter clean rooted name |
| Generate.HasPwRuleForSecret | internal/action/generate.go:145-154 | the corrected loop, which also stops at "/", returns exactly the reference `PwRuleFor` on "", ".", "/" and every clean name, relative or rooted |
| Generate.RootNeverReturns | internal/action/generate.go:146-151 | as written, the loop at "/" without a rule for "/" never returns: `path.Dir("/")` is "/" |
| Generate.RootedNameNeverReturns | internal/action/generate.go:145-154 | as written, "/x" with no rule for "x" or "/" never returns, whatever the number of rounds |
| Generate.PwRuleLoop | internal/action/generate.go:145-154 | the loop as written, run for a bounded number of rounds: no answer without rounds; an answer is either ("", empty rule) or an element that has the rule returned |
| Generate.LoopRound | internal/action/generate.go:146-151 | one round of the loop as written: return the base's rule, or go on with `path.Dir` |
| Generate.LoopAgreesOnRelative | internal/action/generate.go:145-154 | on clean relative names the loop as written returns within `|n|+1` rounds, and returns what the reference does |
| Generate.ChangeURLFound | internal/action/generate.go:204-212 | "" exactly when no element from `p[1]` to `p[i]` has a change URL; otherwise the URL of the deepest element that has one |
| Generate.HasChangeURL | internal/action/generate.go:204-212 | the loop returns `ChangeURLFrom` of the elements of the name split at "/" |
| Generate.FirstElementIgnored | internal/action/generate.go:206 | the loop stops before `p[0]`: the top-level element never decides the change URL |
| Generate.SetMetadata | internal/action/generate.go:229-233 | body and MIME flag unchanged; keys no pair names keep their values; multi-valued keys keep theirs; every other named key holds the value of one pair naming it, and a key named by one pair only holds that pair's value |
| Generate.SetPair | internal/action/generate.go:231 | one `Set`, error ignored, keeps the loop invariant |
| Generate.SetMetadataStep | internal/action/generate.go:230-232 | one `Set`, refused or not, keeps the invariant `SetSoFar` |
| Generate.SetMetadataDone | internal/action/generate.go:229-233 | when every pair is done, the invariant gives the postconditions of `SetMetadata` |
| Generate.KeepCounts | internal/action/generate.go:268-270 | filtering keeps each passing element as often as it occurs and no other element |
| Generate.KeepConcat | internal/action/generate.go:264-273 | filtering a concatenation is the concatenation of the filtered parts |
| Generate.ExtractEmails | internal/action/generate.go:264-273 | the `path.Base` of each entry that contains "@" or "_", in order |
| Generate.ExtractDomains | internal/action/generate.go:277-286 | the `path.Base` of each entry that `reDomain` accepts, in order |
| Generate.Uniq | internal/action/generate.go:288-299 | every distinct element once, strictly ascending, and no other element |
| Generate.FilterPrefix | internal/action/generate.go:301-309 | the elements with the prefix, in order; membership is exactly "occurs and has the prefix" |
| Generate.KeepSorted | internal/action/generate.go:254-256 | filtering a strictly ascending list keeps it strictly ascending |
| Generate.KeepMembers | internal/action/generate.go:301-309 | an element is kept exactly when it occurs and passes |
| Generate.UniqThenFilter | internal/action/generate.go:254-256 | `filterPrefix(uniq(l), p)` is strictly ascending and holds exactly the elements of `l` with prefix `p` |
| Generate.CompletionCandidates | internal/action/generate.go:253-257 | completion offers each last element that the extractor keeps and that has the prefix, once each and in ascending order, and nothing else |
| Strings.TrimRightChar | pkg/gosecret/secrets/kv.go:178 | `strings.TrimRight` with one character: a prefix of the input; everything after it is that character; it does not end in it |
| Strings.TrimSpaceOfTrimmed | pkg/gosecret/secrets/kv.go:185-187 | `TrimSpace` leaves a trimmed string alone and removes a single leading space before it |
| Strings.IndexOf | pkg/gosecret/secrets/kv.go:180 | the first occurrence of the character, or the length when there is none |
| Strings.LastIndexOf | internal/action/generate.go:147-151 | the last occurrence of the character, or -1 when there is none |
| Strings.Split | internal/action/generate.go:205 | `strings.Split` never returns an empty list |
| Strings.SplitNoSep | internal/action/generate.go:205 | no element `strings.Split` returns contains the separator |
| Strings.JoinSplit | internal/action/generate.go:205 | joining the elements `strings.Split` returns with the separator gives back the input, so the elements are the pieces between separators, in order |
| Strings.SplitRooted | internal/action/generate.go:205 | a name that starts with "/" splits into a leading empty element |
| Strings.LessTransitive | pkg/gosecret/secrets/kv.go:105 | the string order `sort.Strings` uses is transitive |
| Strings.LessTotal | pkg/gosecret/secrets/kv.go:105 | any two different strings are ordered one way or the other |
| Strings.SortStringsSorted | pkg/gosecret/secrets/kv.go:105 | sorting gives an ascending permutation of the input |
| Strings.SortDistinct | pkg/gosecret/secrets/kv.go:100-107 | sorting a list without repeats gives the ascending list of its elements |
| Strings.SortedElems | pkg/gosecret/secrets/kv.go:100-107 | the elements of a set as a strictly ascending list with exactly those elements |
| Strings.SortedSlice | internal/action/generate.go:293-298 | collecting a set in any order and sorting it gives the strictly ascending list of its elements |
| Strings.PathDir | internal/action/generate.go:151 | `path.Dir` of a name without "/" is "."; otherwise "/" for a name whose only "/" leads, or else the non-empty part before the last "/" |
| Strings.TrimSpace | pkg/gosecret/secrets/kv.go:185-187 | `strings.TrimSpace` gives a trimmed middle part of the input, with only white space cut off either end |
| Strings.Lower | pkg/gosecret/secrets/kv.go:189 | `strings.ToLower` on ASCII letters: the same length, no capital left, and exactly the capitals change |
| Strings.HasPrefixSplits | internal/action/generate.go:304 | `strings.HasPrefix(s, p)` holds exactly when `s` is `p` followed by the rest of `s` |
| Strings.PathBase | internal/action/generate.go:147 | `path.Base` is never empty, and of a non-empty name it is "/" or holds no "/" |
| Strings.LastIndexAfterFirst | internal/action/generate.go:151 | the last slash of a name, from the last slash of the name without its first character |

## Left out

- I/O is not modelled: the terminal, the clipboard and printing. `GitStatus`
  (internal/store/leaf/rcs.go:52-60) only prints the storage's status, so it is left out.
  So are the debug logging and `out.Errorf`.
- Concurrency: the Go registry is an unsynchronised package-level map; the model is a
  single `Registry` object.
- The legacy MIME, YAML and plain parsers, `passfile`, decryption and the password-rule
  database lookups are function-valued parameters. Their own behaviour is not modelled.
- `reDomain` is the parameter `isDomain` of `ExtractDomains`; the regular expression
  itself is not modelled.
- Secret contents are modelled as strings of Unicode scalar values rather than byte
  slices. Invalid UTF-8 and binary bodies are not covered.
- Strings.Lower: lower-cases the ASCII letters only; `strings.ToLower` also maps the other
  Unicode upper-case letters.
- Strings.Less: compares code points. Go compares strings byte by byte; the two orders
  agree on valid UTF-8.
- KVFormat.Get requires that a present key has at least one value. Go indexes `v[0]`
  without a check and panics otherwise.
- `value interface{}` in `Set` and `Add` is formatted with `%s`. The model takes the
  formatted string.
- The key-only branch of `ParseKV` (kv.go:191-194) is unreachable, because `SplitN` on a
  line with a ':' always gives two parts. It has no counterpart in the model.
- The read error of `ParseKV` (kv.go:167-172) cannot happen on an in-memory reader, so
  `ParseKV` never fails.
- `sort.Slice` is not stable and map iteration order is unspecified. `DetectStorage`
  therefore promises only a first handler among loaders of the lowest priority
  (`Detected`), and `IdsByPriority` sorts with an insertion sort whose order among equal
  priorities is one of the possible ones. `DetectionDeterministic` shows that the result
  is determined when priorities differ.
- Go dereferences `storageRegistry[FS]` without a check, so `DetectStorage` and
  `InitStorageBackend` require a registered FS loader.
- `Context` carries only the values the core reads: show-parsing, the alias and the
  storage backend. `GetStorageBackend` defaults are modelled through `storageBackend`.
- A storage loader's `String` and `Version` are not modelled.
- Backend.Registry.Name: `String` calls `StorageNameFromBackend`, whose body is not part of
  this model. The model reads `storageBackendToNameMap` directly and returns "" for an id
  never registered, which is what a Go map lookup of a missing key gives.
- The declaration of the three registry tables and the construction of a leaf `Store`
  are not part of this model. `Backend.Registry` and `Leaf.Store` have constructors only
  so that the model can make such objects.
- Strings.PathDir: matches `path.Dir` only on clean names (no empty, "." or ".."
  elements). `path.Clean` in general is not modelled.
- Generate.HasPwRuleForSecret requires "", ".", "/" or a clean name.
- Generate.SetMetadata models the `Set` of a KV secret only. A YAML secret's `Set` is a
  different operation and is not part of this model.
- `CompleteGenerate` (generate.go:236-262) reads the store and prints candidates. Only its
  list computation is modelled (`CompletionCandidates`); `bashEscape` and the store
  listing are not.
- Strings Go formats with `%q` are built without Go's escaping of quotes and control
  characters: the secret's context strings and the "unknown backend" errors of
  `Backend.Registry.NewStorage` and `Backend.Registry.InitStorage`.
- The `PriorityOneBeforeTen` fixture takes its two priorities from the gpg and age crypto
  loaders. No storage loader with a priority is part of this model.

## Findings

| source | as written | input that shows it | evidently intended | confidence | as-written member | corrected member |
|---|---|---|---|---|---|---|
| internal/action/generate.go:145-154 | the loop runs while the name is neither "" nor "."; `path.Dir` of a rooted name ends at "/", and `path.Dir("/")` is "/" again | the name "/x" when neither "x" nor "/" has a password rule: the loop never ends | stop at "/" as well and return `("", Rule{})` when no element has a rule | medium; not executed (whether callers pass rooted names is not part of this model) | Generate.RootedNameNeverReturns | Generate.HasPwRuleForSecret |
