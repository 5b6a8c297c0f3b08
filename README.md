# Character normalization inspector — a verified Dafny model

`src/normalizer.ts` reports, for a character or a string:
- each character's code point and its `"0x…"` hexadecimal form;
- the same two values for each of the four Unicode normalization forms (NFC, NFD, NFKC, NFKD, section 1.2 of Unicode Standard Annex #15);
- whether a character is "normalizable", meaning some form keeps its hexadecimal form, and which forms do.

The model has two modules:

- `ecma.dfy`, module `Ecma`, holds the ECMAScript built-ins the file relies on, as ECMA-262 defines them:
  - strings as UTF-16 code units, and `codePointAt`;
  - the string iterator behind `Array.from`;
  - `Number.prototype.toString(radix)`;
  - `String.prototype.repeat`;
  - `String.prototype.padStart` (the StringPad operation);
  - `Object.assign` over plain records.

  A thrown exception becomes a `Failure(TypeError)` or `Failure(RangeError)` value.
- `normalizer.dfy`, module `Normalizer`, holds the file itself:
  - the form table;
  - `getCodePoint` and `getEncodeInfo` with its `hexForm` getter;
  - `stringNormalizer`;
  - the recursive `getCharNormalizeForm`;
  - `isNormalizable`;
  - `getCharNormalizerForms`.

The pure parts are functions. `getCharNormalizerForms`, which pushes into a local array in a `forEach`, is a method with loops. Each loop is proved against a reference function.

`String.prototype.normalize` is the parameter `norm: (Str, Form) -> Str`. The model does not interpret it: it assumes no idempotence and no other property of it.

The two central results:
- **The `hexForm` getter.** Its pad count is computed from the number of *decimal* digits, while the padded digits are *hexadecimal*. Even so, for every code point below 10000 it gives exactly `"0x"` and four lower-case hex digits (`HexFormBelow10000`, `HexFormDigits`). From 10000 on, `'0'.repeat` receives a negative count and the getter throws a RangeError (`HexFormThrows`). Where it does not throw it is injective (`HexFormInjective`). So the `hexForm` comparisons in `isNormalizable` and `getCharNormalizerForms` compare code points (`IsNormalizableByCodePoint`, `CharCompatibilityByCodePoint`).
- **`getCharNormalizerForms` never returns `null` for a string.** A string's profile always has a key (`ProfileNonEmpty`). On `""` the one key has an undefined code point, so the call throws a TypeError (`EmptyProfileThrows`).

Two edge cases of the code on the empty string:
- `isNormalizable("", true)` passes the guard, reads `hexForm` of an undefined code point and throws a TypeError (`IsNormalizable`);
- `getCharNormalizerForms("")` throws the same TypeError and never reaches `return null` (`EmptyProfileThrows`).

## Model

| member | source | states |
|---|---|---|
| Normalizer.NormalizeFormat | src/normalizer.ts:1-6 | The fixed list NFC, NFD, NFKC, NFKD. |
| Normalizer.FormIndex | src/normalizer.ts:1-6 | The form list is NFC, NFD, NFKC, NFKD, and every form has its position in it. |
| Normalizer.GetCodePoint | src/normalizer.ts:32-37 | The result is undefined exactly for the empty string, and otherwise a code point of at most 0x10FFFF. |
| Normalizer.GetEncodeInfo | src/normalizer.ts:61-65 | The record's code point is `getCodePoint` of the value; `GetCodePoint` and `GetCodePointUtf16` state what that is. |
| Normalizer.GetCodePointUtf16 | src/normalizer.ts:32-37 | For a string that starts with the UTF-16 encoding of a scalar value, the result is that scalar value. |
| Ecma.CodePointAt | src/normalizer.ts:34 | A surrogate pair combines into a supplementary code point (at least 0x10000). Any other code unit, a lone surrogate included, is returned as it is. |
| Ecma.CodePointAtUtf16 | src/normalizer.ts:34 | codePointAt decodes what UTF-16 encodes, whatever follows it. |
| Ecma.Repeat | src/normalizer.ts:71 | `repeat` throws a RangeError exactly for a negative count. Otherwise the result has length count times the length of `s` and only `s`'s characters. |
| Ecma.RepeatCopies | src/normalizer.ts:71 | The result of `repeat` is count copies of `s`: its character at i is `s`'s at i modulo the length of `s`. |
| Ecma.PadStart | src/normalizer.ts:69-71 | `padStart` keeps the string as its suffix and pads to exactly maxLength with the fill repeated and truncated. With an empty fill, or a string already long enough, it changes nothing. |
| Ecma.NumberToStringRoundTrip | src/normalizer.ts:68-70 | Reading the digits of `toString(radix)` back in that radix gives the number. |
| Ecma.NumberToStringDigits | src/normalizer.ts:68-70 | `toString(radix)` uses only the radix's lower-case digits and has no leading zero. |
| Ecma.NumberToStringLength | src/normalizer.ts:68 | `toString(radix)` has at most k digits exactly when the number is below radix^k (so a code point has five or more decimal digits exactly from 10000 on). |
| Ecma.NumberToString | src/normalizer.ts:68-70 | `toString(radix)` has at least one digit; its digits, length and value are stated by the three lemmas above. |
| Normalizer.DigitCountsBelow10000 | src/normalizer.ts:67-71 | Below 10000 the hex digit count is between 1 and the decimal digit count, the decimal count is at most 4, and it exceeds the hex count by at most one. |
| Normalizer.RepeatZeros | src/normalizer.ts:71 | `'0'.repeat(n)` succeeds with n zeros for every n >= 0. |
| Normalizer.PadStartFill | src/normalizer.ts:69-71 | Padding to 6 with the fill `"0x"` and (4 - decimal count) zeros gives `"0x"` and the digits zero-padded to 4. The repeated fill only wraps onto a `'0'`. |
| Normalizer.HexForm | src/normalizer.ts:66-72 | The getter: `"0x"` and (4 - decimal digit count) zeros as the fill of `padStart(6, …)` on the hex digits. Its outcomes are stated by `HexFormThrows`, `HexFormBelow10000`, `HexFormDigits` and `HexFormInjective`. |
| Normalizer.HexFormPads | src/normalizer.ts:66-72 | Below 10000 the repeat succeeds, and the getter returns the `padStart` of the hex digits. |
| Normalizer.HexFormBelow10000 | src/normalizer.ts:66-72 | For every code point below 10000 the getter returns exactly `"0x"` and the hex digits zero-padded to four. |
| Normalizer.HexFormSpecDigits | src/normalizer.ts:66-72 | That reference form has six characters, starts with `"0x"`, and has four lower-case hex digits that read back as the code point. |
| Normalizer.HexFormDigits | src/normalizer.ts:66-72 | The getter's result below 10000 has six characters, starts with `"0x"`, and has four lower-case hex digits that read back as the code point. |
| Normalizer.HexFormThrows | src/normalizer.ts:65-71 | The getter throws a TypeError for an undefined code point and a RangeError for a code point of 10000 or more. It succeeds exactly below 10000. |
| Normalizer.HexFormInjective | src/normalizer.ts:66-72 | Where it does not throw, two hexForms are equal exactly when the code points are. |
| Normalizer.EncodeForms | src/normalizer.ts:79-87 | The `map` callback gives, for each form, one single-key record keyed by that form that encodes the normalized string. |
| Normalizer.StringNormalizer | src/normalizer.ts:76-88 | The result is exactly four single-key records, in the order NFC, NFD, NFKC, NFKD. Each is keyed by its form and encodes the first code point of `value.normalize(form)`. |
| Normalizer.CharNormalizeForm | src/normalizer.ts:49-58 | A one-character record holds the value's own code point and, for each of the four forms, the code point of the normalized value. |
| Normalizer.CharNormalizeFormAssigns | src/normalizer.ts:49-52 | `Object.assign({}, ...stringNormalizer(value))` is exactly that four-form table: no form's record is overwritten. |
| Normalizer.AssignForm | src/normalizer.ts:49-52 | Each form's record survives the merge of the four records. |
| Ecma.Assign | src/normalizer.ts:43-46 | Every key of any source is in the merge. Every merged key comes from some source, with that source's value. |
| Ecma.AssignLastWins | src/normalizer.ts:43-46 | The value kept for a key is the one from the last source that holds it. |
| Ecma.Split | src/normalizer.ts:45 | `Array.from` on a string yields pieces of one or two code units. A piece has two units exactly when it is a surrogate pair, and a one-unit piece is never the high half of a pair with the next piece: a pair stays whole wherever it occurs, one piece per code point. |
| Ecma.SplitSupplementary | src/normalizer.ts:42-45 | A supplementary-plane character is one piece, the two-unit string itself. So the recursion gets its own argument back. |
| Ecma.SplitConcat | src/normalizer.ts:45 | The pieces concatenate back to the string. |
| Ecma.SplitWithoutPairs | src/normalizer.ts:45 | Without surrogate pairs the pieces are the single code units, in order. |
| Normalizer.MergeProfiles | src/normalizer.ts:43-46 | Merging the element records gives the union of their keys, and each entry is the record of its own key. |
| Normalizer.MergeText | src/normalizer.ts:42-46 | Merging the records of a string's code units gives exactly the one-unit strings it contains. |
| Normalizer.ArrayFrom | src/normalizer.ts:45 | `Array.from(value, getCharNormalizeForm)` gives one record per element, in order, each keyed by that element's characters. |
| Normalizer.GetCharNormalizeForm | src/normalizer.ts:39-59 | A string of at most one unit gives exactly one key, itself. A longer string gives exactly its one-unit strings as keys. An array gives the union of its elements' keys. Every entry is the record of its key. |
| Normalizer.ProfileNonEmpty | src/normalizer.ts:42-58 | A string always yields at least one key. |
| Normalizer.ProfileComplete | src/normalizer.ts:42-58 | Every record in a string's profile holds all four forms. |
| Normalizer.EmptyProfileThrows | src/normalizer.ts:115-124 | The empty string yields the single key `""`, and reading its hexForm throws a TypeError. So `getCharNormalizerForms("")` throws and does not return null. |
| Normalizer.AnyFormMatches | src/normalizer.ts:109-111 | `some` returns true exactly when a form's hexForm equals the character's own and no earlier form threw. It returns false exactly when no form matches and none throws. On a throw, the error is the first form's that throws before any match. |
| Normalizer.AnyFormMatchesTotal | src/normalizer.ts:109-111 | When no form throws, `some` is the plain "exists a form" test. |
| Normalizer.FirstChar | src/normalizer.ts:101 | `substr(0, 1)` gives the first code unit, or the empty string. |
| Normalizer.IsNormalizable | src/normalizer.ts:90-112 | A RangeError when `safe` is falsy and the length is not 1. A TypeError for the empty string when it passes the guard. |
| Normalizer.SomeFormKeepsHex | src/normalizer.ts:103-111 | Reads the record's own hexForm (which may throw), then runs `some` over the forms; `AnyFormMatches` states the outcome. |
| Normalizer.IsNormalizableLooksUp | src/normalizer.ts:101-108 | Past the guard, the check looks at the record of the first code unit. |
| Normalizer.IsNormalizableExists | src/normalizer.ts:103-111 | A true result means the string is non-empty, its character's hexForm exists, and some form's hexForm equals it. |
| Normalizer.IsNormalizableNfcSuffices | src/normalizer.ts:109-111 | The check is an "exists": NFC keeping the hexForm makes the result true whatever the other forms do, even throw. |
| Normalizer.SomeFormKeepsHexByCodePoint | src/normalizer.ts:105-111 | With every code point below 10000, comparing hexForms is comparing code points. |
| Normalizer.IsNormalizableByCodePoint | src/normalizer.ts:90-112 | Below 10000, the result is whether some form of the first code unit starts with that same code point. |
| Normalizer.Matching | src/normalizer.ts:128-132 | The reference filter keeps exactly the form encodings whose hexForm is the target, at most one per form. |
| Normalizer.MatchingAppend | src/normalizer.ts:128-132 | Filtering one more form appends that form's encoding exactly when it matches. |
| Normalizer.CompatibleForms | src/normalizer.ts:128-132 | What the `forEach`/`push` loop has collected after a prefix of the forms; the three lemmas below state its outcome. |
| Normalizer.CompatibleFormsSucceeds | src/normalizer.ts:128-132 | The `forEach`/`push` loop completes exactly when no form's hexForm throws. |
| Normalizer.CompatibleFormsValue | src/normalizer.ts:125-132 | When it completes, the loop collects exactly the reference filter, in form order. |
| Normalizer.CompatibleFormsFails | src/normalizer.ts:128-132 | When it throws, it throws the error of the first form that throws. |
| Normalizer.CompatibleFormsPrefixFails | src/normalizer.ts:128-132 | A throw among the forms visited so far is the loop's throw. |
| Normalizer.CompatibleEntry | src/normalizer.ts:121-138 | The per-key callback (read the key's hexForm, then the loop that pushes matching forms) computes the key's entry, error paths included. |
| Normalizer.CharCompatibility | src/normalizer.ts:121-138 | One key's entry: its own hexForm is read, the forms are filtered, and the key is encoded afresh; `CompatibleEntry` computes it and the lemmas below state it. |
| Normalizer.CharCompatibilityTotal | src/normalizer.ts:121-138 | When nothing throws, an entry's list has at most 4 encodings. Each has the key's hexForm, and each form with that hexForm is listed. |
| Normalizer.HexFormsByCodePoint | src/normalizer.ts:129 | Below 10000 no hexForm of an entry throws, and a form matches exactly when its code point is the key's. |
| Normalizer.CharCompatibilityByCodePointEntry | src/normalizer.ts:121-138 | Below 10000 an entry's list holds exactly the form encodings whose code point is the key's, at most four. |
| Normalizer.CharCompatibilityByCodePoint | src/normalizer.ts:121-138 | Below 10000 a character's list holds, at most four of them, exactly the forms that start with the character itself. Its encoding is the character's own. |
| Normalizer.MatchingNonEmpty | src/normalizer.ts:128-132 | The filter over the four forms is non-empty exactly when some form's hexForm is the target. |
| Normalizer.CharCompatibilitySucceeds | src/normalizer.ts:121-132 | A successful entry read its own hexForm and every form's, and lists exactly the reference filter. |
| Normalizer.SomeFormKeepsHexAgrees | src/normalizer.ts:109-111 | When an entry throws nowhere, `some` is true exactly when the `forEach`/`push` loop collects something. |
| Normalizer.IsNormalizableAgrees | src/normalizer.ts:90-112 | For a character that throws nowhere, `isNormalizable` is true exactly when `getCharNormalizerForms` lists a form for it. |
| Normalizer.CompatibleEntries | src/normalizer.ts:118-140 | The map over the keys succeeds exactly when every key's entry does. Then it maps every key of the profile, and only those, to its entry. On failure the error is one that some key's entry raises. |
| Normalizer.EntriesOrNull | src/normalizer.ts:116-142 | The result is null exactly for an empty profile. Otherwise it is the per-key entries, or a throw exactly when some key's entry throws. |
| Normalizer.GetCharNormalizerForms | src/normalizer.ts:114-143 | Every record of the string's profile has all four forms. The result is the per-key entries of that profile, or a throw exactly when some key's entry throws; it is never null. |

## Left out

- `String.prototype.normalize` is the uninterpreted parameter `norm`. The Unicode normalization algorithm itself is not modelled.
- Normalizer.GetCharNormalizeForm requires that no string contains a surrogate pair. For a supplementary-plane character, `Array.from` hands the same two-unit string back (`SplitSupplementary`), and the source's recursion never ends.
- Normalizer.GetCharNormalizerForms has the same surrogate-pair requirement, since it calls `getCharNormalizeForm` on its argument.
- Normalizer.CompatibleEntries visits keys in an unspecified order, because the model's records are maps and `Object.keys` order is not modelled. So on failure it promises only that the error is one some key raises, not the first key's in `Object.keys` order.
- Normalizer.EntriesOrNull has the same weaker failure promise: the error is one some key raises.
- Normalizer.GetCharNormalizerForms has the same weaker failure promise.
- `Object.freeze` and the lazy getter are not modelled as objects. `hexForm` is the pure function `HexForm` of the code point, evaluated wherever the source reads the getter, so its throw occurs at the same reads.
- Normalizer.IsNormalizable states only the guard and the empty-string error in its own contract. Its result is characterised by the lemmas that follow it, because its value depends on the uninterpreted `norm`.
- Normalizer.CharNormalizeForm writes the four-form table directly. `CharNormalizeFormAssigns` proves it equal to `Object.assign({}, ...stringNormalizer(value))`.
- Numbers are non-negative integers. Code points are never negative or fractional, so JavaScript's double arithmetic does not arise.
- The TypeScript type aliases (src/normalizer.ts:8-30) are types only and have no behaviour to model.
