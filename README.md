# Translatable bundle engine, modelled in Dafny

This project models the translation bundle engine of the `Translatable` trait
(`src/Translatable.php`) of the Laravel package profscode-translatable. An
Eloquent model lists some attributes as translatable. After the model is
saved, each such attribute whose value is a `locale => translation` array is
written locale by locale into a PHP bundle file at
`{locale}/{ClassBaseName}/{id}.php` under the language directory. A bundle is
a string-to-string array. When a key already holds a different value, that
value is kept in history before the key is overwritten. It moves to the first
free slot `{key}_old{N}`, where N = 1, 2, … is the smallest number whose slot
is absent. A read loads one bundle and looks up one key. It gives null when
the file or the key is missing.

Files:

- `slot_keys.dfy`: `Wrappers` (Option) and `SlotKeys`. The history slot
  name `{key}_old{N}`, its decimal rendering of N, and why distinct N give
  distinct names.
- `bundles.dfy`: `Bundles`. The versioned write on one bundle: the
  first-free-slot search, the write and its properties (history, no
  collateral change, idempotence, the chain of successive writes).
- `store.dfy`: `BundleStore`. The language directory as a map from bundle
  path to bundle, with path derivation, load, read and write.
- `translatable.dfy`: `Translatable`. The model as the engine sees it, the
  helpers of the trait, the planned writes of the `saved` hook, and the class
  `TranslationStore`. Its methods `SaveToLangFile` (with the slot-search
  `while` loop), `OnSaved` and `SaveLocales` (the nested `foreach` loops)
  update the store in place. `GetTranslation` reads it.

The store is keyed by path string, as the source is. Two different
(locale, class, id) triples give the same path string only if the locale or
the class contains a slash (`PathInjective`). Distinct locales of one class
and id never share a path string (`LocalesIsolated`). The file system may
still resolve two distinct strings to one file, for example the locales `.`
and the empty one. Loading a bundle file with `include` and writing it with
`var_export` are treated as a faithful pair.

The trait neither writes nor reads the index table that the package's
migration and `ProfscodeTranslate` model declare. It has no reconciliation
of provisional ids, no search and no fallback to a default locale. A read
goes to one bundle file only. A key-less model is written to id `new` but
read from an empty id (see Findings).

## Model

| member | source | states |
|---|---|---|
| `SlotKeys.DecimalString` | src/Translatable.php:56 | the slot number as PHP interpolates it: decimal digits only, without a leading zero; `ParseDecimalRoundTrip` reads it back |
| `SlotKeys.OldKey` | src/Translatable.php:56-59 | the slot name starts with the key it archives and is longer than it |
| `SlotKeys.ParseDecimalRoundTrip` | src/Translatable.php:56 | the decimal rendering of the slot number is read back as the same number |
| `SlotKeys.OldKeyInjective` | src/Translatable.php:56-59 | distinct slot numbers of one key name distinct slots |
| `SlotKeys.OldKeyNotKey` | src/Translatable.php:59-62 | a slot name never equals the key, so setting the key never overwrites the archived value |
| `Bundles.FilledSlotsBound` | src/Translatable.php:55-58 | a bundle whose slots 1..n of a key are all taken has at least n entries, so the search ends |
| `Bundles.FreeSlotFrom` | src/Translatable.php:55-58 | the search from slot i returns a slot at or after i that is absent, with every slot 1..N-1 present |
| `Bundles.FirstFreeSlot` | src/Translatable.php:55-58 | the slot chosen is the least positive N whose slot is absent |
| `Bundles.FirstFreeUnique` | src/Translatable.php:55-58 | only one slot number is the least free one |
| `Bundles.FirstFreeSlotBound` | src/Translatable.php:55-58 | the slot chosen is at most the bundle's size plus one |
| `Bundles.FirstSlotOfUnversionedKey` | src/Translatable.php:55-59 | with `{key}_old1` absent, the first superseded value goes to `{key}_old1` |
| `Bundles.Versioned` | src/Translatable.php:54-62 | afterwards key maps to the new value; every other existing entry is unchanged; a different previous value sits at the least free slot, which was absent before |
| `Bundles.VersionedKeys` | src/Translatable.php:54-62 | a write adds only the key and, when the value changes, one new slot |
| `Bundles.VersionedWithoutHistory` | src/Translatable.php:54-62 | writing the current value, or to an absent key, only sets the key and adds no slot |
| `Bundles.VersionedGrowsByOne` | src/Translatable.php:54-62 | a write that supersedes a value grows the bundle by exactly one entry |
| `Bundles.VersionedIdempotent` | src/Translatable.php:54-62 | writing the same value twice leaves the bundle as writing it once |
| `Bundles.WriteAll` | src/Translatable.php:62 | after a run of writes to a key, the key holds the last value |
| `Bundles.SlotRangeSnoc` | src/Translatable.php:55-59 | the slots 1..k are the slots 1..k-1 plus slot k |
| `Bundles.ChainNextSlot` | src/Translatable.php:55-58 | in a bundle holding only the key and slots 1..k-1, the next superseded value goes to slot k |
| `Bundles.HistoryStepSlots` | src/Translatable.php:54-62 | a new value on a history of k values adds slot k with the previous value, and nothing else |
| `Bundles.HistoryKeepsSlots` | src/Translatable.php:54-62 | a further write leaves every earlier slot and its value in place |
| `Bundles.HistoryStep` | src/Translatable.php:54-62 | a new value extends a history of k values to k+1 values |
| `Bundles.HistoryStart` | src/Translatable.php:49-62 | the first write into an empty bundle holds the key alone |
| `Bundles.HistoryChain` | src/Translatable.php:54-62 | from an empty bundle, successive different values leave `key_old1..key_old{k-1}` holding the earlier values in order, the key holding the last, and nothing else |
| `BundleStore.SlashPositions` | src/Translatable.php:42-43 | a slash-free prefix puts no slash where a shorter prefix puts its separator |
| `BundleStore.SplitAtSlash` | src/Translatable.php:42-43 | a slash-free prefix before a slash is determined by the whole string |
| `BundleStore.BundlePath` | src/Translatable.php:42-43 | the path starts with the locale directory and ends in `.php`, and its length is that of locale, class and id plus six separator characters |
| `BundleStore.PathInjective` | src/Translatable.php:42-43 | with slash-free locale and class, equal bundle path strings mean equal locale, class and id |
| `BundleStore.LoadBundle` | src/Translatable.php:49-52 | a missing bundle file loads as the empty bundle, an existing one as its contents |
| `BundleStore.ReadAt` | src/Translatable.php:78-84 | null when the file or the key is missing, otherwise the key's value |
| `BundleStore.StoreWrite` | src/Translatable.php:49-65 | a write creates or replaces only the file at its path, with the versioned write of the loaded bundle; every other file stays as it was |
| `BundleStore.WriteThenRead` | src/Translatable.php:62-84 | reading the path and key just written gives the written value |
| `BundleStore.WriteKeepsOtherReads` | src/Translatable.php:54-62 | a write leaves every other readable (path, key) with its value |
| `BundleStore.SuffixCancel` | src/Translatable.php:42-43 | strings that agree after a common suffix are equal, so paths of one class and id differ when their locales do |
| `BundleStore.LocalesIsolated` | src/Translatable.php:42-43 | a write for one locale does not change any read of another locale of the same class and id, whatever characters the locales hold |
| `Translatable.GetTranslatableAttributes` | src/Translatable.php:32-35 | the declared `translatable` list, or empty when none is declared |
| `Translatable.BundleId` | src/Translatable.php:40 | the model key, or `new` when the key is null |
| `Translatable.WritePath` | src/Translatable.php:39-43 | a write for a locale goes to `{locale}/{class}/{key}.php`, or `{locale}/{class}/new.php` for a model without key |
| `Translatable.ReadPath` | src/Translatable.php:73-76 | the corrected read goes to the bundle a write for the requested locale, or else the application locale, goes to |
| `Translatable.ReadPathAsWritten` | src/Translatable.php:73-76 | the read as written agrees with the corrected read for a model with a key, and goes to `{locale}/{class}/.php` for a model without one |
| `Translatable.ResolveLocale` | src/Translatable.php:73 | the requested locale, or the application locale when none is given |
| `Translatable.ReadIdAsWritten` | src/Translatable.php:75-76 | the read side's id: the model key, or the empty string when it is null |
| `Translatable.AttributeOf` | src/Translatable.php:22 | the attribute's value, or null when the model has no such attribute |
| `Translatable.AttributeWrites` | src/Translatable.php:21-26 | an array value gives one write per entry, in order, with its locale and translation; any other value, or a missing attribute, gives none |
| `Translatable.ApplyWrites` | src/Translatable.php:20-27 | a run of writes for one class and id removes no file and leaves every file that no write of the run goes to as it was |
| `Translatable.ApplyWritesSnoc` | src/Translatable.php:24-26 | applying one more write is one more store write at its locale's path |
| `Translatable.ApplyWritesAppend` | src/Translatable.php:20-27 | applying two runs of writes is applying the second to the result of the first |
| `Translatable.PlannedWritesSnoc` | src/Translatable.php:20-27 | the writes of attributes 0..i are those of 0..i-1 followed by those of attribute i |
| `Translatable.PlannedWritesStep` | src/Translatable.php:20-27 | one outer iteration of the hook moves the store from the writes of i attributes to those of i+1 |
| `Translatable.PlannedWritesSound` | src/Translatable.php:20-27 | every write that `PlannedWrites` lists for the hook comes from an entry of an array-valued translatable attribute |
| `Translatable.PlannedWritesComplete` | src/Translatable.php:20-27 | every entry of every array-valued translatable attribute gets its write in `PlannedWrites` |
| `Translatable.PlannedWritesCount` | src/Translatable.php:20-27 | the number of writes in `PlannedWrites` equals the number of entries over array-valued attributes |
| `Translatable.EntryCountSnoc` | src/Translatable.php:20-27 | counting entries of one more attribute adds its array length, or nothing |
| `Translatable.PlannedWritesSkipNonArrays` | src/Translatable.php:23 | when no translatable attribute holds an array, the hook writes nothing |
| `Translatable.OtherWriteKeepsRead` | src/Translatable.php:24-26 | a write to another (locale, attribute) of the same class and id keeps an already readable translation |
| `Translatable.LastWriteWins` | src/Translatable.php:24-26 | after a run of writes, a read of a (locale, attribute) gives the translation of a write to it that no later write to it contradicts |
| `Translatable.PlannedTargetsDistinct` | src/Translatable.php:20-27 | with each attribute declared once and each array keyed by distinct locales, no (locale, attribute) is written twice |
| `Translatable.SavedThenRead` | src/Translatable.php:20-27 | after the hook, every (locale, translation) entry of every array-valued translatable attribute reads back from its locale's bundle, also when the attribute is declared more than once |
| `Translatable.TranslationRoundTrip` | src/Translatable.php:40-84 | writing a key for a model and locale, then reading it for the same model and locale, gives the written value |
| `Translatable.PostSavedPerLocale` | src/Translatable.php:20-27 | the hook for a post titled in English and Turkish writes one single-key bundle per locale |
| `Translatable.RetitleEnglishBundle` | src/Translatable.php:54-62 | retitling `Hello` to `Hi` keeps `Hello` in `title_old1` |
| `Translatable.RetitledPostKeepsHistory` | src/Translatable.php:20-62 | after the hook, retitling the post in English leaves `{title: Hi, title_old1: Hello}` |
| `Translatable.KeylessReadMissesAsWritten` | src/Translatable.php:40-84 | as written, a translation saved for a key-less model is not found by the read |
| `Translatable.TranslationStore.SaveToLangFile` | src/Translatable.php:37-66 | the store afterwards is the old store with the versioned write applied to the bundle at the model's path for the locale |
| `Translatable.TranslationStore.SaveLocales` | src/Translatable.php:24-26 | the inner loop applies one write per entry of the attribute's array, in order |
| `Translatable.TranslationStore.OnSaved` | src/Translatable.php:18-29 | the store afterwards is the old store with all planned writes of the hook applied in order |
| `Translatable.TranslationStore.GetTranslation` | src/Translatable.php:71-85 | null when the bundle or the key is missing, otherwise the key's value; a key-less model is read at id `new` |
| `Translatable.TranslationStore.GetTranslationAsWritten` | src/Translatable.php:71-85 | the read as written: same as above, but a key-less model is read at the empty id |

## Left out

- The `dd($id, $model)` call in `saveToLangFile` (src/Translatable.php:41) stops every write. It reads as a leftover debugging halt, so the model writes as if it were absent.
- The `saving` hook (src/Translatable.php:12-17) replaces every translatable attribute with the class base name before `saved` runs. As wired, no array reaches the `saved` loop, so the hook writes nothing end to end. `OnSaved` takes the attributes as given and does not model this hand-over.
- Registration of the hooks, `class_basename`, `getKey`, `getAttributes` and `app()->getLocale()` are framework calls. They become fields of `Model` and the `appLocale` parameter.
- File-system plumbing is replaced by the map `files` from relative path to bundle: `lang_path`, directory creation, `File::exists`, `include`, `var_export` and `File::put`. Atomicity of the file write and concurrent writers are not modelled.
- PHP array details of a bundle are not modelled: entry order, numeric-string key conversion, and null or non-string values. With a null value `isset` treats the key as absent. Bundles here hold strings only.
- Non-string translations inside a locale array are not modelled. The source's `string` parameter would coerce or reject them. Locale arrays hold strings only.
- A model key is taken in its string form. An integer key interpolates as its decimal digits.
- The translation index table, its Eloquent model, its migration and both service providers are not part of this model. No code in the trait reads or writes them.

## Findings

| source | as written | input that shows it | evidently intended | confidence | as-written member | corrected member |
|---|---|---|---|---|---|---|
| src/Translatable.php:40-76 | the write names the bundle of a model whose key is null with id `new`, but the read uses the key as it is, which gives an empty id | a `Post` with null key and `title` saved as `Hello` for `en` is written to `en/Post/new.php`; the read looks in `en/Post/.php` and gives null | the read derives the id as the write does, so whatever a model saved reads back | medium, not executed | `Translatable.KeylessReadMissesAsWritten` | `Translatable.TranslationRoundTrip` |
