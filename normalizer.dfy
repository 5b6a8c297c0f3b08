/** The character normalization inspector: for a character it reports the
    code point and hexadecimal form of the character itself and of its four
    Unicode normalization forms, and which forms leave it unchanged.
    String.prototype.normalize is a parameter that the model does not
    interpret. */
module Normalizer {
  import opened Ecma

  // ---------------------------------------------------------------------------
  // Forms and encodings
  // ---------------------------------------------------------------------------

  /** The four normalization forms of Unicode Standard Annex #15, section 1.2. */
  datatype Form = NFC | NFD | NFKC | NFKD

  /** The fixed form table, in the order every operation visits it. */
  const NormalizeFormat: seq<Form> := [NFC, NFD, NFKC, NFKD]

  /** The platform's s.normalize(form). */
  type Normalize = (Str, Form) -> Str

  /** The position of a form in NormalizeFormat. */
  function FormIndex(f: Form): (i: nat)
    ensures i < |NormalizeFormat| && NormalizeFormat[i] == f
  {
    match f
    case NFC => 0
    case NFD => 1
    case NFKC => 2
    case NFKD => 3
  }

  /** A frozen { codePoint, get hexForm() } record; None stands for the
      undefined code point of an empty string. */
  datatype Encoding = Encoding(codePoint: Option<nat>)

  /** The first code point of s, or None (undefined) for the empty string. */
  function GetCodePoint(s: Str): (r: Option<nat>)
    ensures r.None? <==> s == []
    ensures r.Some? ==> r.value <= 0x10FFFF
  {
    if |s| > 0 then Some(CodePointAt(s, 0)) else None
  }

  /** getCodePoint recovers the code point a string starts with. */
  lemma GetCodePointUtf16(cp: nat, rest: Str)
    requires cp <= 0x10FFFF && !(0xD800 <= cp <= 0xDFFF)
    ensures GetCodePoint(Utf16(cp) + rest) == Some(cp)
  {
    CodePointAtUtf16(cp, rest);
  }

  function GetEncodeInfo(s: Str): Encoding {
    Encoding(GetCodePoint(s))
  }

  /** The hexForm getter: the pad count comes from the number of DECIMAL
      digits, the fill "0x" + that many zeros is handed to padStart(6, ...)
      on the lower-case hexadecimal digits. Reading it throws a TypeError
      for an undefined code point and a RangeError when the pad count is
      negative. */
  function HexForm(e: Encoding): Result<seq<char>> {
    match e.codePoint
    case None => Failure(TypeError)
    case Some(cp) =>
      var addedZero := 4 - |NumberToString(cp, 10)|;
      var zeros :- Repeat("0", addedZero);
      Success(PadStart(NumberToString(cp, 16), 6, "0x" + zeros))
  }

  /** Zeros in front of digits up to the given width. */
  function ZeroPad(digits: seq<char>, width: nat): seq<char> {
    (if |digits| < width then Zeros(width - |digits|) else []) + digits
  }

  /** The intended format: "0x" and the hexadecimal digits padded to four. */
  function HexFormSpec(cp: nat): seq<char> {
    "0x" + ZeroPad(NumberToString(cp, 16), 4)
  }

  /** n has exactly k digits in the radix when radix^(k-1) <= n < radix^k. */
  lemma DigitCount(n: nat, radix: nat, k: nat)
    requires 2 <= radix <= 16 && 1 <= k
    requires (k == 1 || Pow(radix, k - 1) <= n) && n < Pow(radix, k)
    ensures |NumberToString(n, radix)| == k
  {
    NumberToStringLength(n, radix, k);
    if k > 1 {
      NumberToStringLength(n, radix, k - 1);
    }
  }

  /** Below 10000 the hex digit count is at most the decimal digit count and
      at least one less than it. */
  lemma DigitCountsBelow10000(cp: nat)
    requires cp < 10000
    ensures var dec, hex := |NumberToString(cp, 10)|, |NumberToString(cp, 16)|;
      1 <= hex <= dec <= 4 && dec <= hex + 1
  {
    assert Pow(10, 1) == 10 && Pow(10, 2) == 100 && Pow(10, 3) == 1000 && Pow(10, 4) == 10000;
    assert Pow(16, 1) == 16 && Pow(16, 2) == 256 && Pow(16, 3) == 4096 && Pow(16, 4) == 65536;
    if cp < 10 {
      DigitCount(cp, 10, 1);
      DigitCount(cp, 16, 1);
    } else if cp < 16 {
      DigitCount(cp, 10, 2);
      DigitCount(cp, 16, 1);
    } else if cp < 100 {
      DigitCount(cp, 10, 2);
      DigitCount(cp, 16, 2);
    } else if cp < 256 {
      DigitCount(cp, 10, 3);
      DigitCount(cp, 16, 2);
    } else if cp < 1000 {
      DigitCount(cp, 10, 3);
      DigitCount(cp, 16, 3);
    } else if cp < 4096 {
      DigitCount(cp, 10, 4);
      DigitCount(cp, 16, 3);
    } else {
      DigitCount(cp, 10, 4);
      DigitCount(cp, 16, 4);
    }
  }

  /** The fill repeat hands to padStart: "0x" and addedZero zeros. */
  lemma {:induction false} RepeatZeros(n: nat)
    ensures Repeat("0", n) == Success(Zeros(n))
  {
    var z := Repeat("0", n).value;
    assert |z| == n;
    forall i | 0 <= i < n
      ensures z[i] == '0'
    {
      assert z[i] in "0";
    }
    assert z == Zeros(n);
  }

  lemma ModBelow(i: nat, m: nat)
    requires i < m
    ensures i % m == i
  {
  }

  lemma ModSelf(m: nat)
    requires 0 < m
    ensures m % m == 0
  {
  }

  /** padStart(6, "0x" + zeros) on digits when the fill is at most one
      character shorter than the room to fill: the repeated fill only ever
      wraps onto its leading '0'. */
  lemma PadStartFill(digits: seq<char>, dec: nat)
    requires 1 <= |digits| <= dec <= 4 && dec <= |digits| + 1
    ensures PadStart(digits, 6, "0x" + Zeros(4 - dec)) == "0x" + ZeroPad(digits, 4)
  {
    var fill := "0x" + Zeros(4 - dec);
    var pad := PadStart(digits, 6, fill);
    var want := "0x" + Zeros(4 - |digits|);
    assert want + digits == "0x" + ZeroPad(digits, 4);
    assert |fill| == 6 - dec;
    forall i | 0 <= i < 6 - |digits|
      ensures pad[i] == want[i]
    {
      assert pad[i] == fill[i % |fill|];
      if i < |fill| {
        ModBelow(i, |fill|);
      } else {
        assert i == |fill|;
        ModSelf(i);
      }
    }
    assert pad == want + digits;
  }

  /** For every code point below 10000 the two-stage padding yields exactly
      "0x" followed by the four-digit lower-case hexadecimal form. */
  lemma HexFormBelow10000(cp: nat)
    requires cp < 10000
    ensures HexForm(Encoding(Some(cp))) == Success(HexFormSpec(cp))
  {
    var dec, hex := NumberToString(cp, 10), NumberToString(cp, 16);
    DigitCountsBelow10000(cp);
    HexFormPads(cp);
    PadStartFill(hex, |dec|);
  }

  /** Below 10000 repeat succeeds, so hexForm is the padStart of the hex
      digits with "0x" and the zeros. */
  lemma HexFormPads(cp: nat)
    requires cp < 10000
    ensures var dec := NumberToString(cp, 10);
      |dec| <= 4 &&
      HexForm(Encoding(Some(cp))) == Success(PadStart(NumberToString(cp, 16), 6, "0x" + Zeros(4 - |dec|)))
  {
    DigitCountsBelow10000(cp);
    RepeatZeros(4 - |NumberToString(cp, 10)|);
  }

  /** The reference form: six characters, "0x" and four lower-case
      hexadecimal digits that read back as the code point. */
  lemma HexFormSpecDigits(cp: nat)
    requires cp < 10000
    ensures var h := HexFormSpec(cp);
      |h| == 6 && h[..2] == "0x" &&
      (forall i :: 2 <= i < 6 ==> h[i] in Digits) &&
      ParseDigits(h[2..], 16) == cp
  {
    DigitCountsBelow10000(cp);
    var hex := NumberToString(cp, 16);
    var h := HexFormSpec(cp);
    var z := 4 - |hex|;
    assert h[2..] == Zeros(z) + hex;
    ParseLeadingZeros(z, hex, 16);
    NumberToStringRoundTrip(cp, 16);
    NumberToStringDigits(cp, 16);
    assert Digits[..16] == Digits;
    forall i | 2 <= i < 6
      ensures h[i] in Digits
    {
      if i >= 2 + z {
        assert h[i] == hex[i - 2 - z];
      }
    }
  }

  /** The hexForm of a code point below 10000: six characters, "0x" and four
      lower-case hexadecimal digits that read back as the code point. */
  lemma HexFormDigits(cp: nat)
    requires cp < 10000
    ensures HexForm(Encoding(Some(cp))).Success?
    ensures var h := HexForm(Encoding(Some(cp))).value;
      |h| == 6 && h[..2] == "0x" &&
      (forall i :: 2 <= i < 6 ==> h[i] in Digits) &&
      ParseDigits(h[2..], 16) == cp
  {
    HexFormBelow10000(cp);
    HexFormSpecDigits(cp);
  }

  /** Reading hexForm throws exactly for an undefined code point (a
      TypeError) and for a code point of five or more decimal digits (a
      RangeError from repeat with a negative count). */
  lemma HexFormThrows(e: Encoding)
    ensures e.codePoint.None? ==> HexForm(e) == Failure(TypeError)
    ensures e.codePoint.Some? && e.codePoint.value >= 10000 ==> HexForm(e) == Failure(RangeError)
    ensures HexForm(e).Success? <==> e.codePoint.Some? && e.codePoint.value < 10000
  {
    if e.codePoint.Some? {
      var cp := e.codePoint.value;
      assert Pow(10, 4) == 10000;
      NumberToStringLength(cp, 10, 4);
    }
  }

  /** Wherever it does not throw, hexForm is injective: comparing hexForms
      compares code points. */
  lemma HexFormInjective(a: Encoding, b: Encoding)
    requires HexForm(a).Success? && HexForm(b).Success?
    ensures HexForm(a) == HexForm(b) <==> a.codePoint == b.codePoint
  {
    HexFormThrows(a);
    HexFormThrows(b);
    HexFormDigits(a.codePoint.value);
    HexFormDigits(b.codePoint.value);
  }

  // ---------------------------------------------------------------------------
  // stringNormalizer and the single-character record
  // ---------------------------------------------------------------------------

  /** The callback of normalizeFormat.map: one single-key record per form. */
  function EncodeForms(norm: Normalize, value: Str, forms: seq<Form>): (r: seq<map<Form, Encoding>>)
    ensures |r| == |forms|
    ensures forall i :: 0 <= i < |forms| ==>
      r[i].Keys == {forms[i]} && r[i][forms[i]] == GetEncodeInfo(norm(value, forms[i]))
  {
    if forms == [] then []
    else [map[forms[0] := GetEncodeInfo(norm(value, forms[0]))]] + EncodeForms(norm, value, forms[1..])
  }

  /** Four single-key records in the order NFC, NFD, NFKC, NFKD, each
      encoding the first code point of value.normalize(form). */
  function StringNormalizer(norm: Normalize, value: Str): (r: seq<map<Form, Encoding>>)
    ensures |r| == 4
    ensures forall i :: 0 <= i < 4 ==>
      r[i].Keys == {NormalizeFormat[i]} &&
      r[i][NormalizeFormat[i]] == GetEncodeInfo(norm(value, NormalizeFormat[i]))
  {
    EncodeForms(norm, value, NormalizeFormat)
  }

  /** The per-character record of getCharNormalizeForm. */
  datatype CharForms = CharForms(encodeInfo: Encoding, normalizeForm: map<Form, Encoding>)

  /** The record for a string of at most one code unit: its own encoding
      and, for every form, the encoding of the normalized string. The table
      is written out directly; CharNormalizeFormAssigns shows it is the
      record Object.assign builds from stringNormalizer's four records. */
  function CharNormalizeForm(norm: Normalize, value: Str): (r: CharForms)
    ensures r.encodeInfo.codePoint == GetCodePoint(value)
    ensures forall f: Form :: f in r.normalizeForm
    ensures forall f: Form :: r.normalizeForm[f].codePoint == GetCodePoint(norm(value, f))
  {
    CharForms(GetEncodeInfo(value), map f: Form | true :: GetEncodeInfo(norm(value, f)))
  }

  /** Object.assign({}, ...stringNormalizer(value)) is that table: the four
      single-key records have distinct keys, so each form keeps its own. */
  lemma CharNormalizeFormAssigns(norm: Normalize, value: Str)
    ensures Assign(StringNormalizer(norm, value)) == CharNormalizeForm(norm, value).normalizeForm
  {
    var records := StringNormalizer(norm, value);
    var table := Assign(records);
    var want := CharNormalizeForm(norm, value).normalizeForm;
    forall f: Form ensures f in table && table[f] == want[f] {
      AssignForm(records, FormIndex(f));
    }
    FormTablesEqual(table, want);
  }

  /** Two tables that agree on every form are the same table. */
  lemma FormTablesEqual(a: map<Form, Encoding>, b: map<Form, Encoding>)
    requires forall f: Form :: f in a && f in b && a[f] == b[f]
    ensures a == b
  {
  }

  /** The record of form i survives the merge of the four records. */
  lemma AssignForm(records: seq<map<Form, Encoding>>, i: nat)
    requires |records| == 4 && i < 4
    requires forall j :: 0 <= j < 4 ==> records[j].Keys == {NormalizeFormat[j]}
    ensures NormalizeFormat[i] in Assign(records)
    ensures Assign(records)[NormalizeFormat[i]] == records[i][NormalizeFormat[i]]
  {
    var f := NormalizeFormat[i];
    assert f in records[i];
    AssignLastWins(records, f, i);
  }

  // ---------------------------------------------------------------------------
  // getCharNormalizeForm
  // ---------------------------------------------------------------------------

  /** The argument: a string or an array of strings. */
  datatype Value = Text(s: Str) | Array(items: seq<Str>)

  /** No string of the value holds a surrogate pair: exactly where the
      recursion ends, since Array.from hands a pair back as the same
      two-unit string forever. */
  predicate PairFree(value: Value) {
    match value
    case Text(s) => NoSurrogatePair(s)
    case Array(items) => forall i :: 0 <= i < |items| ==> NoSurrogatePair(items[i])
  }

  /** The keys a string contributes: itself when it has at most one code
      unit, otherwise each of its code units as a one-unit string. */
  predicate IsCharKey(s: Str, k: Str) {
    if |s| <= 1 then k == s else |k| == 1 && k[0] in s
  }

  /** Merging the records of the parts gives the union of their keys, and
      every entry stays the one of its own key. */
  lemma MergeProfiles(norm: Normalize, parts: seq<Str>, sources: seq<map<Str, CharForms>>)
    requires |sources| == |parts|
    requires forall i, k :: 0 <= i < |parts| ==> (k in sources[i] <==> IsCharKey(parts[i], k))
    requires forall i :: 0 <= i < |parts| ==> forall k :: k in sources[i] ==> sources[i][k] == CharNormalizeForm(norm, k)
    ensures forall k, i :: 0 <= i < |parts| && IsCharKey(parts[i], k) ==> k in Assign(sources)
    ensures forall k :: k in Assign(sources) ==>
      (exists i :: 0 <= i < |parts| && IsCharKey(parts[i], k)) && Assign(sources)[k] == CharNormalizeForm(norm, k)
  {
    var r := Assign(sources);
    forall k | k in r
      ensures (exists i :: 0 <= i < |parts| && IsCharKey(parts[i], k)) && r[k] == CharNormalizeForm(norm, k)
    {
      var i :| 0 <= i < |sources| && k in sources[i] && r[k] == sources[i][k];
      assert IsCharKey(parts[i], k);
    }
    forall k, i | 0 <= i < |parts| && IsCharKey(parts[i], k)
      ensures k in r
    {
      assert k in sources[i];
    }
  }

  /** For a string without surrogate pairs, the keys merged from its
      code units are its one-unit strings. */
  lemma SplitKeys(s: Str, k: Str)
    requires |s| > 1 && NoSurrogatePair(s)
    ensures (exists i :: 0 <= i < |Split(s)| && IsCharKey(Split(s)[i], k)) <==> IsCharKey(s, k)
  {
    var parts := Split(s);
    SplitWithoutPairs(s);
    if exists i :: 0 <= i < |parts| && IsCharKey(parts[i], k) {
      var i :| 0 <= i < |parts| && IsCharKey(parts[i], k);
      assert parts[i] == [s[i]];
    }
    if IsCharKey(s, k) {
      var i :| 0 <= i < |s| && s[i] == k[0];
      assert parts[i] == [s[i]];
      assert k == [k[0]];
      assert IsCharKey(parts[i], k);
    }
  }

  /** The length of the longest string in items. */
  function MaxLength(items: seq<Str>): (m: nat)
    ensures forall i :: 0 <= i < |items| ==> |items[i]| <= m
  {
    if items == [] then 0
    else
      var rest := MaxLength(items[1..]);
      assert forall i :: 1 <= i < |items| ==> items[i] == items[1..][i - 1];
      if |items[0]| > rest then |items[0]| else rest
  }

  /** Merging the records of a string's code units gives exactly its keys. */
  lemma MergeText(norm: Normalize, s: Str, sources: seq<map<Str, CharForms>>)
    requires |s| > 1 && NoSurrogatePair(s)
    requires |sources| == |Split(s)|
    requires forall i, k :: 0 <= i < |Split(s)| ==> (k in sources[i] <==> IsCharKey(Split(s)[i], k))
    requires forall i :: 0 <= i < |Split(s)| ==> forall k :: k in sources[i] ==> sources[i][k] == CharNormalizeForm(norm, k)
    ensures forall k :: k in Assign(sources) <==> IsCharKey(s, k)
    ensures forall k :: k in Assign(sources) ==> Assign(sources)[k] == CharNormalizeForm(norm, k)
  {
    MergeProfiles(norm, Split(s), sources);
    forall k ensures k in Assign(sources) <==> IsCharKey(s, k) {
      SplitKeys(s, k);
    }
  }

  /** A string of at most one code unit becomes a one-key record; a longer
      string or an array is split, each element handled recursively, and the
      results merged by Object.assign. */
  function GetCharNormalizeForm(norm: Normalize, value: Value): (r: map<Str, CharForms>)
    requires PairFree(value)
    ensures value.Text? ==> forall k :: k in r <==> IsCharKey(value.s, k)
    ensures value.Array? ==> forall k :: k in r <==>
      exists i :: 0 <= i < |value.items| && IsCharKey(value.items[i], k)
    ensures forall k :: k in r ==> r[k] == CharNormalizeForm(norm, k)
    decreases if value.Array? then 1 else 0, if value.Text? then |value.s| else 0, 1, 0
  {
    match value
    case Array(items) =>
      var sources := ArrayFrom(norm, items, MaxLength(items) + 1);
      MergeProfiles(norm, items, sources);
      Assign(sources)
    case Text(s) =>
      if |s| > 1 then
        SplitWithoutPairs(s);
        var sources := ArrayFrom(norm, Split(s), |s|);
        MergeText(norm, s, sources);
        Assign(sources)
      else
        map[s := CharNormalizeForm(norm, s)]
  }

  /** Array.from(parts, getCharNormalizeForm): one record per element, in
      order. The ghost bound exceeds every element's length; it only serves
      the termination argument. */
  function ArrayFrom(norm: Normalize, parts: seq<Str>, ghost bound: nat): (r: seq<map<Str, CharForms>>)
    requires forall i :: 0 <= i < |parts| ==> |parts[i]| < bound && NoSurrogatePair(parts[i])
    ensures |r| == |parts|
    ensures forall i, k :: 0 <= i < |parts| ==> (k in r[i] <==> IsCharKey(parts[i], k))
    ensures forall i :: 0 <= i < |parts| ==> forall k :: k in r[i] ==> r[i][k] == CharNormalizeForm(norm, k)
    decreases 0, bound, 0, |parts|
  {
    if parts == [] then []
    else
      var head := GetCharNormalizeForm(norm, Text(parts[0]));
      var tail := ArrayFrom(norm, parts[1..], bound);
      ProfilesCons(norm, parts, head, tail);
      [head] + tail
  }

  /** The records of the parts, one after the other. */
  lemma ProfilesCons(norm: Normalize, parts: seq<Str>, head: map<Str, CharForms>, tail: seq<map<Str, CharForms>>)
    requires |parts| > 0 && |tail| == |parts| - 1
    requires forall k :: k in head <==> IsCharKey(parts[0], k)
    requires forall k :: k in head ==> head[k] == CharNormalizeForm(norm, k)
    requires forall i, k :: 0 <= i < |parts[1..]| ==> (k in tail[i] <==> IsCharKey(parts[1..][i], k))
    requires forall i :: 0 <= i < |parts[1..]| ==> forall k :: k in tail[i] ==> tail[i][k] == CharNormalizeForm(norm, k)
    ensures forall i, k :: 0 <= i < |parts| ==> (k in ([head] + tail)[i] <==> IsCharKey(parts[i], k))
    ensures forall i :: 0 <= i < |parts| ==> forall k :: k in ([head] + tail)[i] ==> ([head] + tail)[i][k] == CharNormalizeForm(norm, k)
  {
    var r := [head] + tail;
    assert forall i :: 1 <= i < |parts| ==> parts[i] == parts[1..][i - 1] && r[i] == tail[i - 1];
  }

  /** A string always yields at least one key, so getCharNormalizerForms
      never reaches its `return null`. */
  lemma ProfileNonEmpty(norm: Normalize, s: Str)
    requires NoSurrogatePair(s)
    ensures |GetCharNormalizeForm(norm, Text(s))| > 0
  {
    var r := GetCharNormalizeForm(norm, Text(s));
    if |s| <= 1 {
      assert s in r;
    } else {
      assert [s[0]] in r;
    }
  }

  /** The empty string yields the one key "" whose code point is undefined,
      so reading its hexForm throws a TypeError: getCharNormalizerForms("")
      throws rather than returning null. */
  lemma EmptyProfileThrows(norm: Normalize)
    ensures GetCharNormalizeForm(norm, Text([])).Keys == {[]}
    ensures CharCompatibility(GetCharNormalizeForm(norm, Text([]))[[]], HexForm, []) == Failure(TypeError)
  {
    var profile := GetCharNormalizeForm(norm, Text([]));
    assert forall k :: k in profile <==> k == [];
  }

  // ---------------------------------------------------------------------------
  // isNormalizable
  // ---------------------------------------------------------------------------

  /** normalizeFormat.some(nft => table[nft].hexForm === h), reading the
      forms in order and stopping at the first match or the first throw. */
  function AnyFormMatches(table: map<Form, Encoding>, hexOf: Encoding -> Result<seq<char>>, forms: seq<Form>, h: seq<char>): (r: Result<bool>)
    requires forall f: Form :: f in table
    ensures r == Success(true) <==>
      exists i :: 0 <= i < |forms| && hexOf(table[forms[i]]) == Success(h) &&
        forall j :: 0 <= j < i ==> hexOf(table[forms[j]]).Success?
    ensures r == Success(false) <==> forall i :: 0 <= i < |forms| ==>
      hexOf(table[forms[i]]).Success? && hexOf(table[forms[i]]).value != h
    ensures r.Failure? ==>
      exists i :: 0 <= i < |forms| && hexOf(table[forms[i]]) == Failure(r.error) &&
        forall j :: 0 <= j < i ==> hexOf(table[forms[j]]).Success? && hexOf(table[forms[j]]).value != h
  {
    if forms == [] then Success(false)
    else
      var hf :- hexOf(table[forms[0]]);
      if hf == h then Success(true)
      else
        var r := AnyFormMatches(table, hexOf, forms[1..], h);
        assert forall i :: 1 <= i < |forms| ==> forms[i] == forms[1..][i - 1];
        r
  }

  /** A RangeError unless safe or the value is one code unit; otherwise the
      first code unit is looked up and true is returned when SOME form's
      hexForm equals the character's own. */
  function IsNormalizable(norm: Normalize, value: Str, safe: bool): (r: Result<bool>)
    ensures !safe && |value| != 1 ==> r == Failure(RangeError)
    ensures (safe || |value| == 1) && value == [] ==> r == Failure(TypeError)
  {
    if !safe && |value| != 1 then Failure(RangeError)
    else
      var c := FirstChar(value);
      var profile := GetCharNormalizeForm(norm, Text(c));
      SomeFormKeepsHex(profile[c], HexForm)
  }

  /** value.substr(0, 1): the first code unit, or the empty string. */
  function FirstChar(value: Str): (c: Str)
    ensures |c| <= 1 && (|value| >= 1 ==> c == [value[0]])
    ensures value == [] ==> c == []
  {
    value[..if |value| < 1 then |value| else 1]
  }

  /** The destructured record: its own hexForm is read first, then the
      forms are compared with it by some. */
  function SomeFormKeepsHex(normalize: CharForms, hexOf: Encoding -> Result<seq<char>>): Result<bool>
    requires forall f: Form :: f in normalize.normalizeForm
  {
    var hexForm :- hexOf(normalize.encodeInfo);
    AnyFormMatches(normalize.normalizeForm, hexOf, NormalizeFormat, hexForm)
  }

  /** Past the guard, isNormalizable examines the record of the first code unit. */
  lemma IsNormalizableLooksUp(norm: Normalize, value: Str, safe: bool)
    requires safe || |value| == 1
    ensures IsNormalizable(norm, value, safe) == SomeFormKeepsHex(CharNormalizeForm(norm, FirstChar(value)), HexForm)
  {
    var c := FirstChar(value);
    assert c in GetCharNormalizeForm(norm, Text(c));
  }

  /** true means that some form's hexForm equals the character's own. */
  lemma IsNormalizableExists(norm: Normalize, value: Str, safe: bool)
    requires IsNormalizable(norm, value, safe) == Success(true)
    ensures |value| >= 1
    ensures var c := FirstChar(value);
      HexForm(GetEncodeInfo(c)).Success? &&
      exists f: Form :: HexForm(GetEncodeInfo(norm(c, f))) == HexForm(GetEncodeInfo(c))
  {
    var c := FirstChar(value);
    IsNormalizableLooksUp(norm, value, safe);
    var entry := CharNormalizeForm(norm, c);
    var h := HexForm(entry.encodeInfo);
    assert h.Success?;
    assert AnyFormMatches(entry.normalizeForm, HexForm, NormalizeFormat, h.value) == Success(true);
    var i :| 0 <= i < 4 && HexForm(entry.normalizeForm[NormalizeFormat[i]]) == h;
    var f := NormalizeFormat[i];
    assert entry.normalizeForm[f] == GetEncodeInfo(norm(c, f));
  }

  /** It is an "exists" check: a character whose NFC form keeps its hexForm
      is normalizable whatever the other three forms do, even throw. */
  lemma IsNormalizableNfcSuffices(norm: Normalize, value: Str, safe: bool)
    requires safe || |value| == 1
    requires var c := FirstChar(value);
      HexForm(GetEncodeInfo(c)).Success? &&
      HexForm(GetEncodeInfo(norm(c, NFC))) == HexForm(GetEncodeInfo(c))
    ensures IsNormalizable(norm, value, safe) == Success(true)
  {
    var c := FirstChar(value);
    IsNormalizableLooksUp(norm, value, safe);
    var entry := CharNormalizeForm(norm, c);
    assert entry.normalizeForm[NFC] == GetEncodeInfo(norm(c, NFC));
    assert HexForm(entry.normalizeForm[NormalizeFormat[0]]) == HexForm(entry.encodeInfo);
  }

  /** When no form throws, some is a plain existential over the forms. */
  lemma AnyFormMatchesTotal(table: map<Form, Encoding>, hexOf: Encoding -> Result<seq<char>>, h: seq<char>)
    requires forall f: Form :: f in table && hexOf(table[f]).Success?
    ensures AnyFormMatches(table, hexOf, NormalizeFormat, h) ==
      Success(exists f: Form :: hexOf(table[f]).value == h)
  {
    if exists f: Form :: hexOf(table[f]).value == h {
      var f: Form :| hexOf(table[f]).value == h;
      var i := FormIndex(f);
      assert hexOf(table[NormalizeFormat[i]]) == Success(h);
    } else {
      assert forall i :: 0 <= i < 4 ==> hexOf(table[NormalizeFormat[i]]).value != h;
    }
  }

  /** When every code point involved is below 10000, comparing hexForms
      is comparing code points. */
  lemma SomeFormKeepsHexByCodePoint(entry: CharForms, cp: nat)
    requires forall f: Form :: f in entry.normalizeForm
    requires entry.encodeInfo.codePoint == Some(cp) && cp < 10000
    requires forall f: Form ::
      entry.normalizeForm[f].codePoint.Some? && entry.normalizeForm[f].codePoint.value < 10000
    ensures SomeFormKeepsHex(entry, HexForm) ==
      Success(exists f: Form :: entry.normalizeForm[f].codePoint == Some(cp))
  {
    var table := entry.normalizeForm;
    HexFormThrows(entry.encodeInfo);
    var h := HexForm(entry.encodeInfo).value;
    forall f: Form
      ensures HexForm(table[f]).Success?
      ensures HexForm(table[f]).value == h <==> table[f].codePoint == Some(cp)
    {
      HexFormThrows(table[f]);
      HexFormInjective(table[f], entry.encodeInfo);
    }
    AnyFormMatchesTotal(table, HexForm, h);
  }

  /** Below code point 10000 isNormalizable asks whether some normalization
      form of the first code unit starts with that same code unit. */
  lemma IsNormalizableByCodePoint(norm: Normalize, value: Str, safe: bool)
    requires safe || |value| == 1
    requires |value| >= 1 && value[0] < 10000
    requires forall f: Form :: var p := GetCodePoint(norm([value[0]], f)); p.Some? && p.value < 10000
    ensures IsNormalizable(norm, value, safe) ==
      Success(exists f: Form :: GetCodePoint(norm([value[0]], f)) == Some(value[0]))
  {
    var c := [value[0]];
    IsNormalizableLooksUp(norm, value, safe);
    var entry := CharNormalizeForm(norm, c);
    assert forall f: Form :: entry.normalizeForm[f].codePoint == GetCodePoint(norm(c, f));
    SomeFormKeepsHexByCodePoint(entry, value[0]);
  }

  // ---------------------------------------------------------------------------
  // getCharNormalizerForms
  // ---------------------------------------------------------------------------

  /** The per-character record of getCharNormalizerForms. */
  datatype CharNormalizable = CharNormalizable(encodeInfo: Encoding, normalizable: seq<Encoding>)

  /** What the forEach/push loop has collected after visiting forms, in
      order: every encoding whose hexForm equals h; a throwing hexForm
      throws. */
  function CompatibleForms(table: map<Form, Encoding>, hexOf: Encoding -> Result<seq<char>>, forms: seq<Form>, h: seq<char>): (r: Result<seq<Encoding>>)
    requires forall f: Form :: f in table
    decreases |forms|
  {
    if forms == [] then Success([])
    else
      var init :- CompatibleForms(table, hexOf, forms[..|forms| - 1], h);
      var e := table[forms[|forms| - 1]];
      var eh :- hexOf(e);
      Success(if eh == h then init + [e] else init)
  }

  /** The reference filter: the encodings of the forms whose hexForm is h,
      in the order of the forms. */
  function Matching(table: map<Form, Encoding>, hexOf: Encoding -> Result<seq<char>>, forms: seq<Form>, h: seq<char>): (r: seq<Encoding>)
    requires forall f: Form :: f in table
    ensures |r| <= |forms|
    ensures forall e :: e in r <==> exists i :: 0 <= i < |forms| && table[forms[i]] == e && hexOf(e) == Success(h)
  {
    if forms == [] then []
    else
      var e := table[forms[0]];
      var rest := Matching(table, hexOf, forms[1..], h);
      assert forall i :: 1 <= i < |forms| ==> forms[i] == forms[1..][i - 1];
      (if hexOf(e) == Success(h) then [e] else []) + rest
  }

  lemma {:induction false} MatchingAppend(table: map<Form, Encoding>, hexOf: Encoding -> Result<seq<char>>, forms: seq<Form>, f: Form, h: seq<char>)
    requires forall f: Form :: f in table
    ensures Matching(table, hexOf, forms + [f], h) ==
      Matching(table, hexOf, forms, h) + (if hexOf(table[f]) == Success(h) then [table[f]] else [])
  {
    if forms != [] {
      assert (forms + [f])[1..] == forms[1..] + [f];
      MatchingAppend(table, hexOf, forms[1..], f, h);
    } else {
      assert [f][1..] == [];
    }
  }

  /** The loop's collection succeeds exactly when no form's hexForm throws. */
  lemma {:induction false} CompatibleFormsSucceeds(table: map<Form, Encoding>, hexOf: Encoding -> Result<seq<char>>, forms: seq<Form>, h: seq<char>)
    requires forall f: Form :: f in table
    ensures CompatibleForms(table, hexOf, forms, h).Success? <==>
      forall i :: 0 <= i < |forms| ==> hexOf(table[forms[i]]).Success?
    decreases |forms|
  {
    if forms != [] {
      var init := forms[..|forms| - 1];
      CompatibleFormsSucceeds(table, hexOf, init, h);
      assert forall i :: 0 <= i < |init| ==> init[i] == forms[i];
    }
  }

  /** When it succeeds, the collection is exactly the reference filter. */
  lemma {:induction false} CompatibleFormsValue(table: map<Form, Encoding>, hexOf: Encoding -> Result<seq<char>>, forms: seq<Form>, h: seq<char>)
    requires forall f: Form :: f in table
    requires CompatibleForms(table, hexOf, forms, h).Success?
    ensures CompatibleForms(table, hexOf, forms, h).value == Matching(table, hexOf, forms, h)
    decreases |forms|
  {
    if forms != [] {
      var init := forms[..|forms| - 1];
      var last := forms[|forms| - 1];
      CompatibleFormsValue(table, hexOf, init, h);
      assert forms == init + [last];
      MatchingAppend(table, hexOf, init, last, h);
    }
  }

  /** When it throws, it throws the error of the first throwing form. */
  lemma {:induction false} CompatibleFormsFails(table: map<Form, Encoding>, hexOf: Encoding -> Result<seq<char>>, forms: seq<Form>, h: seq<char>)
    requires forall f: Form :: f in table
    requires CompatibleForms(table, hexOf, forms, h).Failure?
    ensures
      exists i :: 0 <= i < |forms| && hexOf(table[forms[i]]) == Failure(CompatibleForms(table, hexOf, forms, h).error) &&
        forall j :: 0 <= j < i ==> hexOf(table[forms[j]]).Success?
    decreases |forms|
  {
    var init := forms[..|forms| - 1];
    var ri := CompatibleForms(table, hexOf, init, h);
    var r := CompatibleForms(table, hexOf, forms, h);
    assert forall i :: 0 <= i < |init| ==> init[i] == forms[i];
    if ri.Failure? {
      CompatibleFormsFails(table, hexOf, init, h);
      var i :| 0 <= i < |init| && hexOf(table[init[i]]) == Failure(ri.error) &&
        forall j :: 0 <= j < i ==> hexOf(table[init[j]]).Success?;
      assert hexOf(table[forms[i]]) == Failure(r.error);
    } else {
      CompatibleFormsSucceeds(table, hexOf, init, h);
      assert hexOf(table[forms[|init|]]) == Failure(r.error);
    }
  }

  /** A throw among the forms visited so far is the throw of all of them. */
  lemma {:induction false} CompatibleFormsPrefixFails(table: map<Form, Encoding>, hexOf: Encoding -> Result<seq<char>>, forms: seq<Form>, k: nat, h: seq<char>)
    requires forall f: Form :: f in table
    requires k <= |forms| && CompatibleForms(table, hexOf, forms[..k], h).Failure?
    ensures CompatibleForms(table, hexOf, forms, h) == CompatibleForms(table, hexOf, forms[..k], h)
    decreases |forms| - k
  {
    if k < |forms| {
      assert forms[..k + 1][..k] == forms[..k];
      CompatibleFormsPrefixFails(table, hexOf, forms, k + 1, h);
    } else {
      assert forms[..k] == forms;
    }
  }

  /** One key's entry: its own hexForm is read first (and may throw), then
      the forms are filtered, and the key is encoded afresh. */
  function CharCompatibility(entry: CharForms, hexOf: Encoding -> Result<seq<char>>, key: Str): Result<CharNormalizable>
    requires forall f: Form :: f in entry.normalizeForm
  {
    var h :- hexOf(entry.encodeInfo);
    var normalizable :- CompatibleForms(entry.normalizeForm, hexOf, NormalizeFormat, h);
    Success(CharNormalizable(GetEncodeInfo(key), normalizable))
  }

  /** When no hexForm throws, an entry's normalizable list holds exactly
      the form encodings whose hexForm is the entry's own. */
  lemma CharCompatibilityTotal(entry: CharForms, hexOf: Encoding -> Result<seq<char>>, key: Str)
    requires forall f: Form :: f in entry.normalizeForm
    requires hexOf(entry.encodeInfo).Success?
    requires forall f: Form :: hexOf(entry.normalizeForm[f]).Success?
    ensures var r := CharCompatibility(entry, hexOf, key);
      r.Success? && |r.value.normalizable| <= 4 &&
      (forall e :: e in r.value.normalizable ==> hexOf(e) == hexOf(entry.encodeInfo)) &&
      (forall f: Form :: hexOf(entry.normalizeForm[f]) == hexOf(entry.encodeInfo) ==>
        entry.normalizeForm[f] in r.value.normalizable)
  {
    var table := entry.normalizeForm;
    var h := hexOf(entry.encodeInfo).value;
    CompatibleFormsSucceeds(table, hexOf, NormalizeFormat, h);
    CompatibleFormsValue(table, hexOf, NormalizeFormat, h);
    forall f: Form | hexOf(table[f]) == Success(h)
      ensures table[f] in Matching(table, hexOf, NormalizeFormat, h)
    {
      assert table[NormalizeFormat[FormIndex(f)]] == table[f];
    }
  }

  /** Below code point 10000 no hexForm of an entry throws, and a form's
      hexForm is the entry's own exactly when their code points agree. */
  lemma HexFormsByCodePoint(entry: CharForms, cp: nat)
    requires forall f: Form :: f in entry.normalizeForm
    requires entry.encodeInfo.codePoint == Some(cp) && cp < 10000
    requires forall f: Form ::
      entry.normalizeForm[f].codePoint.Some? && entry.normalizeForm[f].codePoint.value < 10000
    ensures HexForm(entry.encodeInfo).Success?
    ensures forall f: Form ::
      && HexForm(entry.normalizeForm[f]).Success?
      && (HexForm(entry.normalizeForm[f]) == HexForm(entry.encodeInfo) <==> entry.normalizeForm[f].codePoint == Some(cp))
  {
    HexFormThrows(entry.encodeInfo);
    forall f: Form
      ensures HexForm(entry.normalizeForm[f]).Success?
      ensures HexForm(entry.normalizeForm[f]) == HexForm(entry.encodeInfo) <==> entry.normalizeForm[f].codePoint == Some(cp)
    {
      HexFormThrows(entry.normalizeForm[f]);
      HexFormInjective(entry.normalizeForm[f], entry.encodeInfo);
    }
  }

  /** Below code point 10000 an entry's normalizable list holds the form
      encodings with the entry's own code point, and every such one. */
  lemma CharCompatibilityByCodePointEntry(entry: CharForms, key: Str, cp: nat)
    requires forall f: Form :: f in entry.normalizeForm
    requires entry.encodeInfo.codePoint == Some(cp) && cp < 10000
    requires forall f: Form ::
      entry.normalizeForm[f].codePoint.Some? && entry.normalizeForm[f].codePoint.value < 10000
    ensures var r := CharCompatibility(entry, HexForm, key);
      r.Success? && |r.value.normalizable| <= 4 &&
      (forall e :: e in r.value.normalizable ==> e.codePoint == Some(cp)) &&
      (forall f: Form :: entry.normalizeForm[f].codePoint == Some(cp) ==> entry.normalizeForm[f] in r.value.normalizable)
  {
    HexFormsByCodePoint(entry, cp);
    CharCompatibilityTotal(entry, HexForm, key);
    var list := CharCompatibility(entry, HexForm, key).value.normalizable;
    forall e | e in list ensures e.codePoint == Some(cp) {
      HexFormThrows(e);
      HexFormInjective(e, entry.encodeInfo);
    }
  }

  /** Below code point 10000 a character's normalizable list holds exactly
      the form encodings that start with the character itself: at most four,
      and each of those forms is listed. */
  lemma CharCompatibilityByCodePoint(norm: Normalize, c: Str)
    requires |c| == 1 && c[0] < 10000
    requires forall f: Form :: var p := GetCodePoint(norm(c, f)); p.Some? && p.value < 10000
    ensures var r := CharCompatibility(CharNormalizeForm(norm, c), HexForm, c);
      r.Success? && r.value.encodeInfo.codePoint == Some(c[0]) &&
      |r.value.normalizable| <= 4 &&
      (forall e :: e in r.value.normalizable ==> e.codePoint == Some(c[0])) &&
      (forall f: Form :: GetCodePoint(norm(c, f)) == Some(c[0]) ==> GetEncodeInfo(norm(c, f)) in r.value.normalizable)
  {
    var entry := CharNormalizeForm(norm, c);
    assert forall f: Form :: entry.normalizeForm[f] == GetEncodeInfo(norm(c, f));
    CharCompatibilityByCodePointEntry(entry, c, c[0]);
  }

  /** The reference filter over the four forms is non-empty exactly when
      some form's hexForm is h. */
  lemma MatchingNonEmpty(table: map<Form, Encoding>, hexOf: Encoding -> Result<seq<char>>, h: seq<char>)
    requires forall f: Form :: f in table
    ensures |Matching(table, hexOf, NormalizeFormat, h)| > 0 <==> exists f: Form :: hexOf(table[f]) == Success(h)
  {
    var list := Matching(table, hexOf, NormalizeFormat, h);
    if |list| > 0 {
      assert list[0] in list;
      var i :| 0 <= i < 4 && table[NormalizeFormat[i]] == list[0] && hexOf(list[0]) == Success(h);
      assert hexOf(table[NormalizeFormat[i]]) == Success(h);
    } else {
      forall f: Form ensures hexOf(table[f]) != Success(h) {
        assert NormalizeFormat[FormIndex(f)] == f;
      }
    }
  }

  /** A successful entry read its own hexForm and filtered every form. */
  lemma CharCompatibilitySucceeds(entry: CharForms, hexOf: Encoding -> Result<seq<char>>, key: Str)
    requires forall f: Form :: f in entry.normalizeForm
    requires CharCompatibility(entry, hexOf, key).Success?
    ensures hexOf(entry.encodeInfo).Success?
    ensures forall f: Form :: hexOf(entry.normalizeForm[f]).Success?
    ensures CharCompatibility(entry, hexOf, key).value.normalizable ==
      Matching(entry.normalizeForm, hexOf, NormalizeFormat, hexOf(entry.encodeInfo).value)
  {
    var h := hexOf(entry.encodeInfo).value;
    CompatibleFormsSucceeds(entry.normalizeForm, hexOf, NormalizeFormat, h);
    CompatibleFormsValue(entry.normalizeForm, hexOf, NormalizeFormat, h);
    forall f: Form ensures hexOf(entry.normalizeForm[f]).Success? {
      assert NormalizeFormat[FormIndex(f)] == f;
    }
  }

  /** When an entry throws nowhere, some over its forms is true exactly when
      the forEach/push loop collects something. */
  lemma SomeFormKeepsHexAgrees(entry: CharForms, hexOf: Encoding -> Result<seq<char>>, key: Str)
    requires forall f: Form :: f in entry.normalizeForm
    requires CharCompatibility(entry, hexOf, key).Success?
    ensures SomeFormKeepsHex(entry, hexOf) == Success(|CharCompatibility(entry, hexOf, key).value.normalizable| > 0)
  {
    CharCompatibilitySucceeds(entry, hexOf, key);
    var h := hexOf(entry.encodeInfo).value;
    AnyFormMatchesTotal(entry.normalizeForm, hexOf, h);
    MatchingNonEmpty(entry.normalizeForm, hexOf, h);
  }

  /** For one character that throws nowhere, isNormalizable is true exactly
      when getCharNormalizerForms lists some form for it. */
  lemma IsNormalizableAgrees(norm: Normalize, c: Str, safe: bool)
    requires |c| == 1
    requires CharCompatibility(CharNormalizeForm(norm, c), HexForm, c).Success?
    ensures IsNormalizable(norm, c, safe) ==
      Success(|CharCompatibility(CharNormalizeForm(norm, c), HexForm, c).value.normalizable| > 0)
  {
    var entry := CharNormalizeForm(norm, c);
    SomeFormKeepsHexAgrees(entry, HexForm, c);
    assert FirstChar(c) == c;
    IsNormalizableLooksUp(norm, c, safe);
  }

  /** Every record of the profile lists all four forms. */
  predicate Complete(profile: map<Str, CharForms>) {
    forall c, f: Form :: c in profile ==> f in profile[c].normalizeForm
  }

  /** Every record of a string's profile lists all four forms. */
  lemma ProfileComplete(norm: Normalize, value: Str)
    requires NoSurrogatePair(value)
    ensures Complete(GetCharNormalizeForm(norm, Text(value)))
  {
    var profile := GetCharNormalizeForm(norm, Text(value));
    forall c | c in profile ensures forall f: Form :: f in profile[c].normalizeForm {
      assert profile[c] == CharNormalizeForm(norm, c);
    }
  }

  /** The body of the outer forEach for one key: the key's own hexForm is
      read, then the inner forEach pushes every form encoding whose hexForm
      equals it. */
  method CompatibleEntry(entry: CharForms, hexOf: Encoding -> Result<seq<char>>, key: Str)
    returns (r: Result<CharNormalizable>)
    requires forall f: Form :: f in entry.normalizeForm
    ensures r == CharCompatibility(entry, hexOf, key)
  {
    var hexForm := hexOf(entry.encodeInfo);
    if hexForm.Failure? {
      return Failure(hexForm.error);
    }
    var normalizeCompatible: seq<Encoding> := [];
    for i := 0 to |NormalizeFormat|
      invariant CompatibleForms(entry.normalizeForm, hexOf, NormalizeFormat[..i], hexForm.value) == Success(normalizeCompatible)
    {
      var nft := NormalizeFormat[i];
      var h := hexOf(entry.normalizeForm[nft]);
      assert NormalizeFormat[..i + 1][..i] == NormalizeFormat[..i];
      if h.Failure? {
        CompatibleFormsPrefixFails(entry.normalizeForm, hexOf, NormalizeFormat, i + 1, hexForm.value);
        return Failure(h.error);
      }
      if h.value == hexForm.value {
        normalizeCompatible := normalizeCompatible + [entry.normalizeForm[nft]];
      }
    }
    assert NormalizeFormat[..|NormalizeFormat|] == NormalizeFormat;
    return Success(CharNormalizable(GetEncodeInfo(key), normalizeCompatible));
  }

  /** The outer forEach over the profile's keys, in an order the model
      leaves open (Object.keys order): the first key that throws ends it. */
  method CompatibleEntries(profile: map<Str, CharForms>, hexOf: Encoding -> Result<seq<char>>)
    returns (r: Result<map<Str, CharNormalizable>>)
    requires Complete(profile)
    ensures r.Success? <==> forall c :: c in profile ==> CharCompatibility(profile[c], hexOf, c).Success?
    ensures r.Success? ==>
      r.value.Keys == profile.Keys &&
      forall c :: c in profile ==> CharCompatibility(profile[c], hexOf, c) == Success(r.value[c])
    ensures r.Failure? ==> exists c :: c in profile && CharCompatibility(profile[c], hexOf, c) == Failure(r.error)
  {
    var result: map<Str, CharNormalizable> := map[];
    var rest := profile.Keys;
    while rest != {}
      invariant rest <= profile.Keys
      invariant result.Keys == profile.Keys - rest
      invariant forall c :: c in result ==> CharCompatibility(profile[c], hexOf, c) == Success(result[c])
      decreases rest
    {
      var c :| c in rest;
      var entry := CompatibleEntry(profile[c], hexOf, c);
      if entry.Failure? {
        return Failure(entry.error);
      }
      result := result[c := entry.value];
      rest := rest - {c};
    }
    return Success(result);
  }

  /** What getCharNormalizerForms returns for a profile: it throws exactly
      when some key's entry throws, and then with that key's error; it is
      null exactly when the profile has no key; otherwise it maps every key
      of the profile, and only those, to the key's entry. */
  predicate NormalizerForms(profile: map<Str, CharForms>, hexOf: Encoding -> Result<seq<char>>,
                            r: Result<Option<map<Str, CharNormalizable>>>)
    requires Complete(profile)
  {
    && (r.Success? <==> forall c :: c in profile ==> CharCompatibility(profile[c], hexOf, c).Success?)
    && (r.Success? ==> (r.value.None? <==> |profile| == 0))
    && (r.Success? && r.value.Some? ==>
          r.value.value.Keys == profile.Keys &&
          forall c :: c in profile ==> CharCompatibility(profile[c], hexOf, c) == Success(r.value.value[c]))
    && (r.Failure? ==> exists c :: c in profile && CharCompatibility(profile[c], hexOf, c) == Failure(r.error))
  }

  /** After the profile is built: null when it has no key, otherwise one
      entry per key. */
  method EntriesOrNull(profile: map<Str, CharForms>, hexOf: Encoding -> Result<seq<char>>)
    returns (r: Result<Option<map<Str, CharNormalizable>>>)
    requires Complete(profile)
    ensures NormalizerForms(profile, hexOf, r)
  {
    var chars := profile.Keys;
    if |chars| > 0 {
      var result := CompatibleEntries(profile, hexOf);
      if result.Failure? {
        return Failure(result.error);
      }
      return Success(Some(result.value));
    }
    return Success(None);
  }

  /** getCharNormalizerForms: the profile of the value, then one entry per
      key. A string's profile always has a key, so it never returns null:
      it either throws or returns the entries. */
  method GetCharNormalizerForms(norm: Normalize, value: Str) returns (r: Result<Option<map<Str, CharNormalizable>>>)
    requires NoSurrogatePair(value)
    ensures Complete(GetCharNormalizeForm(norm, Text(value)))
    ensures NormalizerForms(GetCharNormalizeForm(norm, Text(value)), HexForm, r)
    ensures r != Success(None)
  {
    var normalizer := GetCharNormalizeForm(norm, Text(value));
    ProfileComplete(norm, value);
    ProfileNonEmpty(norm, value);
    r := EntriesOrNull(normalizer, HexForm);
  }
}
