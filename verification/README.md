# Recipe catalog parsing and re-keying, in Dafny

This project models the two pure transformations behind a factory planner's
recipe catalog.

- **`src/app/factories/factory.ts`**
  - `normalize` strips every character that is not an ASCII letter or digit.
  - `itemRates` scans a recipe property string such as
    `((ItemClass=…Desc_IronIngot.Desc_IronIngot_C',Amount=3))` for
    parenthesis-free groups. From each group it takes the item reference and
    the amount, and turns the amount per cycle into an amount per minute.
    One malformed group makes the whole call throw.
  - `getRecipe` looks a recipe up in the catalog and assembles a `Recipe`.
  - `FactoryUtils.add` and `createFactory` are immutable updates of a
    `Factory` record.
- **`src/generateTypedDocs.mjs`, lines 8-15**: a fold that re-keys a list of
  `{NativeClass, Classes}` records into a two-level map.
  - The class key is the last `.`-segment of `NativeClass`, normalized.
  - The instance key is the normalized `ClassName`.
  - Records with the same class key share one inner map.
  - Within an inner map, the last write to an instance key wins.

Modules, one per concern:

- `Wrappers` (`wrappers.dfy`): `Option` and `Result`.
- `Text` (`text.dfy`): character classes, maximal runs and `Normalize`.
- `Numbers` (`numbers.dfy`): a non-negative JavaScript number with `NaN` and
  `Infinity`, the decimal subset of `parseFloat`, and the per-minute
  conversion `amount * 60 / seconds`.
- `ItemRates` (`item_rates.dfy`): the two regular expressions and the
  `itemRates` loop.
- `Factories` (`factory.dfy`): the record types, `CreateFactory`, `GetRecipe`
  and `Add`.
- `TypedDocs` (`typed_docs.dfy`): the re-keying fold.

How the external pieces are represented:

- The catalog that `factory.ts` imports from `@/lib/typedDocs.json` is the
  `catalog` parameter: its `FGRecipe` table as a map from recipe key to the
  four fields `getRecipe` reads.
- The identifiers `uuid7()` draws are the `freshId` parameters.
- A thrown `Error` is a `Failure`.

The fold is given its meaning by an independent reference. Every assignment
`output[className][instanceName] = instance` the loops perform is a `Write`,
listed in execution order. A cell of the result is the instance of the last
write to it. `GenerateIsLastWrite` proves the fold equals that reference, cell
by cell. The merge, overwrite and completeness properties are consequences
of it.

## Model

| member | source | states |
|---|---|---|
| Text.Normalize | src/app/factories/factory.ts:92-95 | the result holds only ASCII letters and digits and is no longer than the input |
| Text.NormalizeAppend | src/app/factories/factory.ts:92-95 | the filter works character by character: normalizing a concatenation concatenates the normalized parts |
| Text.NormalizeFixesAlnum | src/app/factories/factory.ts:92-95 | a string that is already alphanumeric comes back unchanged |
| Text.NormalizeIdempotent | src/app/factories/factory.ts:92-95 | normalizing twice gives the same result as normalizing once |
| Text.NormalizeAround | src/app/factories/factory.ts:92-95 | an alphanumeric character between two texts stays between their normalized forms |
| Text.NormalizeKeepsAlnumInOrder | src/app/factories/factory.ts:92-95 | every alphanumeric input character survives in its place: the output is the normalized text before it, the character, then the normalized text after it |
| Text.NormalizeCounts | src/app/factories/factory.ts:92-95 | a non-alphanumeric character never appears in the output; each alphanumeric character occurs exactly as often as in the input |
| Text.RunLength | src/app/factories/factory.ts:83 | the greedy `+` of a character class: every character of the run belongs to the class, and the run cannot be extended |
| Numbers.ParseFloat | src/app/factories/factory.ts:86 | the modelled `parseFloat` yields NaN exactly when the text does not start with a digit or with `.` and a digit; because it reads an exact real, it never yields Infinity (JavaScript can overflow to Infinity; see Left out) |
| Numbers.WholeDigits | src/app/factories/factory.ts:86 | the integer part `parseFloat` reads is the maximal run of digits at the start of the text |
| Numbers.FractionDigits | src/app/factories/factory.ts:86 | a fraction is read exactly when the integer part is followed by `.` and a digit; it is the maximal digit run right after that `.` |
| Numbers.ParseDecimalText | src/app/factories/factory.ts:86 | `parseFloat` of `whole.frac` followed by any text not starting with a digit is the value of those digits |
| Numbers.LeadingPointValue | src/app/factories/factory.ts:86 | a text of the form `.frac` followed by anything but a digit, with no integer digits, parses to the fraction alone, `frac / 10^|frac|` |
| Numbers.WholeRoundTrip | src/app/factories/factory.ts:86 | printing a natural number in decimal and parsing it back gives the number, whatever non-numeric text follows (such as the `)` the amount capture ends with) |
| Numbers.FractionRoundTrip | src/app/factories/factory.ts:86 | printing `n.b` with `b` zero-padded to `k` digits and parsing it back gives `n + b / 10^k` |
| Numbers.TimesSixty | src/app/factories/factory.ts:86 | multiplying by 60 is undone by dividing by 60 on finite values; NaN and Infinity pass through |
| Numbers.Divide | src/app/factories/factory.ts:86 | on finite values with a positive divisor the quotient times the divisor is the dividend; NaN and Infinity arise exactly in the IEEE 754 cases (0/0, ∞/∞, x/0 for x > 0, ∞/finite) |
| Numbers.PerMinute | src/app/factories/factory.ts:86 | `amount * 60 / seconds` is exactly `amount·60/seconds` for a positive duration; a zero duration gives Infinity, or NaN for a zero amount; NaN in gives NaN out |
| ItemRates.NextParen | src/app/factories/factory.ts:79 | the next `(` or `)` at or after a position, with none skipped |
| ItemRates.GroupSpans | src/app/factories/factory.ts:79-82 | every match of `/\([^()]+\)/g` found from a position is a parenthesis-free group with a non-empty interior, and the matches are disjoint and in left-to-right order |
| ItemRates.GroupSpansComplete | src/app/factories/factory.ts:79-82 | every parenthesis-free group at or after the starting position is found by the scan |
| ItemRates.Groups | src/app/factories/factory.ts:82 | every span `matchAll` returns lies within the input |
| ItemRates.GroupsExact | src/app/factories/factory.ts:79-82 | a span is returned by `matchAll` exactly when it is a parenthesis-free group |
| ItemRates.FirstDotWord | src/app/factories/factory.ts:83 | finds the first `.` followed by a word character, or reports that there is none |
| ItemRates.ItemReference | src/app/factories/factory.ts:83 | a found item reference is a non-empty run of `[a-zA-Z0-9_]` |
| ItemRates.ItemReferenceAbsent | src/app/factories/factory.ts:83 | `/\.([a-zA-Z0-9_]+)/` fails exactly when no `.` in the group is followed by a word character |
| ItemRates.ItemReferenceIsFirstRun | src/app/factories/factory.ts:83 | the capture is the maximal word-character run right after the first `.` that is followed by a word character |
| ItemRates.FirstAmount | src/app/factories/factory.ts:84 | finds the first `Amount=` followed by a character other than a line terminator, or reports that there is none |
| ItemRates.AmountText | src/app/factories/factory.ts:84 | a found amount capture is non-empty and contains no line terminator |
| ItemRates.AmountTextAbsent | src/app/factories/factory.ts:84 | `/Amount=(.+)/` fails exactly when no `Amount=` in the group is followed by a character other than a line terminator |
| ItemRates.AmountTextIsFirstField | src/app/factories/factory.ts:84 | the capture runs from the first usable `Amount=` to the end of its line |
| ItemRates.ItemOfGroup | src/app/factories/factory.ts:83 | in a group with no `.` before `.id` and a non-word character after `id`, the item capture is exactly `id` |
| ItemRates.AmountOfGroup | src/app/factories/factory.ts:84 | after a text without `Amount=`, the amount capture of `Amount=d)` is `d)` when `d` has no line terminator: the `)` is part of the capture |
| ItemRates.GroupRoundTrip | src/app/factories/factory.ts:83-86 | a group built as `(pre.id mid Amount=n)`, with no `.` in `pre`, a word-character `id` ended by a non-word character and no other `Amount=`, parses back to item `normalize(id)` and the rate of amount `n` per cycle, `PerMinute(n, seconds)` |
| ItemRates.Collect | src/app/factories/factory.ts:81-89 | the loop either returns the values of all iterations, in order and one per iteration, or the error of the first failing iteration after only successes |
| ItemRates.ParseItemRates | src/app/factories/factory.ts:80-90 | `itemRates` succeeds exactly when every group parses; it then returns one rate per group, in order; otherwise it fails with the first bad group's error and returns no partial list |
| ItemRates.NoGroupsNoRates | src/app/factories/factory.ts:79-89 | the result is the empty list exactly when the input holds no parenthesis-free group |
| ItemRates.ReturnedRates | src/app/factories/factory.ts:86 | the `a`-th returned rate is the `a`-th group's normalized item reference, with its amount times 60 divided by the cycle time |
| ItemRates.ParsedItemsAlnum | src/app/factories/factory.ts:86 | every returned item id is purely alphanumeric |
| Factories.CreateFactory | src/app/factories/factory.ts:36-44 | a new factory is named "Untitled factory" and has no buildings, connections or recipes; a supplied id is kept verbatim (the empty string too), otherwise the fresh id is used |
| Factories.GetRecipe | src/app/factories/factory.ts:64-77 | an absent key gives nothing; a present key gives the recipe with `id` = key, the display name, ingredient and product rates computed with the same parsed duration, and `producedIn` = "Machine"; it fails exactly when either list is malformed, the ingredients first |
| Factories.FoundRecipeWellFormed | src/app/factories/factory.ts:68-73 | a recipe that is found has the key as its id, and every item id on both sides is alphanumeric |
| Factories.Add | src/app/factories/factory.ts:47-61 | an unknown recipe returns the factory unchanged; a known one appends one building with the fresh id, count 1 and that recipe, and appends exactly the looked-up recipe; id, name and connections never change; it fails exactly when the lookup fails |
| Factories.AddPreservesConsistent | src/app/factories/factory.ts:47-61 | buildings and recipes stay paired: building `i` runs recipe `i` |
| Factories.AddPreservesUniqueIds | src/app/factories/factory.ts:47-61 | with an id no building has yet, building ids stay unique |
| Factories.AddPreservesRecipesInCatalog | src/app/factories/factory.ts:47-61 | every building's recipe remains a key of the catalog |
| TypedDocs.LastSegmentIsLastPiece | src/generateTypedDocs.mjs:9 | `split('.').at(-1)` is a dot-free suffix of the name that is either the whole name or directly preceded by a `.` |
| TypedDocs.NoDotWholeSegment | src/generateTypedDocs.mjs:9 | a name without a `.` is its own last segment |
| TypedDocs.WritesFor | src/generateTypedDocs.mjs:11-14 | the inner loop performs one write per instance, in order, under the record's class key and the instance's normalized name, storing the instance itself |
| TypedDocs.Writes | src/generateTypedDocs.mjs:8-15 | every write stores its instance under that instance's normalized name |
| TypedDocs.LastHit | src/generateTypedDocs.mjs:13 | the position of the last write to a cell, or none exactly when no write touches the cell |
| TypedDocs.LastWriteAppend | src/generateTypedDocs.mjs:13 | after more writes, a cell holds the last new write to it if there is one, and its earlier value otherwise |
| TypedDocs.AddInstancesCells | src/generateTypedDocs.mjs:11-14 | the inner loop leaves each instance key holding its last write, and every other key of the inner map as it was |
| TypedDocs.StepCell | src/generateTypedDocs.mjs:10-14 | one outer iteration changes exactly the cells it writes; all other cells, including other instances under the same class key, keep their values |
| TypedDocs.GenerateIsLastWrite | src/generateTypedDocs.mjs:8-15 | every cell of the output holds the last instance written to it, and a cell exists exactly when some write touched it |
| TypedDocs.ClassKeys | src/generateTypedDocs.mjs:9 | one class key per input record, in input order, each the normalized last segment of its `NativeClass` |
| TypedDocs.GenerateClassKeys | src/generateTypedDocs.mjs:8-10 | the output's top-level keys are exactly the class keys of the input records, present even for a record without instances |
| TypedDocs.WritesContain | src/generateTypedDocs.mjs:11-14 | every (record, instance) pair of the input is written once during the fold |
| TypedDocs.WriteFromInput | src/generateTypedDocs.mjs:11-14 | conversely, every write of the fold stores an unmodified input instance under its own record's class key |
| TypedDocs.EveryInstanceStored | src/generateTypedDocs.mjs:11-14 | every (record, instance) pair has a defined entry at its class and instance key; the entry is an unmodified input instance with that instance key, taken from a record with that class key |
| TypedDocs.SharedClassKeyMerges | src/generateTypedDocs.mjs:10 | a later record with the same class key adds to the existing inner map instead of resetting it; earlier instances it does not overwrite remain |
| TypedDocs.LastWriteWins | src/generateTypedDocs.mjs:13 | an instance written to a cell that no later write touches is the one the output holds there |
| TypedDocs.GenerateKeysAlnum | src/generateTypedDocs.mjs:9-12 | every key of the output, at both levels, is purely alphanumeric |

## Left out

- File I/O in `src/generateTypedDocs.mjs`: the JSON import (line 2) and `writeFileSync` (line 17). The fold takes the record list as a parameter and returns the map.
- The catalog import in `factory.ts` (line 1): it is the `catalog` parameter of `GetRecipe` and `Add`.
- The linear search over `Object.entries` in `getRecipe` is a map lookup. Keys of a JSON object are unique, so the search can match at most one entry.
- `uuid7()` (lines 38 and 56): fresh identifiers are parameters. `AddPreservesUniqueIds` assumes the caller passes an id not yet in use.
- Numbers.ParseFloat: models only unsigned decimal text (`digits[.digits]` or `.digits`). Leading whitespace, a sign, an exponent and the literal `Infinity` give NaN or a shorter prefix, where JavaScript would read them. It reads the digits as an exact real, so it does not round to the nearest double and never overflows to Infinity; a digit string beyond about 1.8e308 would give Infinity in JavaScript. The model assumes the catalog's amounts and durations are plain unsigned decimals of ordinary size.
- Numbers.PerMinute: computes with exact non-negative reals, not IEEE 754 doubles. So it does not model rounding, overflow to Infinity, or negative values.
- ItemRates.GroupRate: the source throws the fixed message "That failed."; the model's error carries the offending group's text instead. Which call fails is the same.
- ItemRates.FirstDotWord: the regular expression `\.([a-zA-Z0-9_]+)` takes the first `.` that is followed by a word character. A `.` followed by anything else is skipped. So the item is not always the text after the very first `.` of the group.
- `Building.count` is a Dafny `real`, since JavaScript numbers are not integers.
- Instance property bags are `map<string, string>`. Their JSON structure is never inspected by the fold, which stores instances unchanged.
- The fold treats `output` as a plain map. In JavaScript, `output` inherits the members of `Object.prototype`, so `??=` keeps the inherited function for a class key such as `constructor` or `toString`. The instances written there then never reach the written JSON. No catalog class is named that way, and this is not modelled.
- The fold's result is an unordered map. A JavaScript object keeps its keys in insertion order, and an overwritten instance key keeps its first position; that order decides the key order of the written JSON, which is not modelled.
- Connections are only carried along: no operation of this core creates or edits them.
- `src/app/factories/page.tsx` and `src/components/ui/combobox.tsx` (storage, routing, rendering, UI filtering) are not part of this model. This version of `factory.ts` has no flow allocation, recipe matching, connection editing or port encoding, so none is modelled.
