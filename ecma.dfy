/** The ECMAScript built-ins the normalizer relies on, as ECMA-262 defines them:
    strings as UTF-16 code units, CodePointAt, the String iterator behind
    Array.from, Number::toString with a radix, String.prototype.repeat,
    String.prototype.padStart (the StringPad operation) and Object.assign
    over plain records. Exceptions become Failure values. */
module Ecma {

  datatype Option<+T> = None | Some(value: T)

  /** The two exception classes the normalizer can raise. */
  datatype Error = TypeError | RangeError

  /** The outcome of an ECMAScript computation that may throw. */
  datatype Result<+T> = Success(value: T) | Failure(error: Error) {
    predicate IsFailure() { Failure? }

    function PropagateFailure<U>(): Result<U>
      requires Failure?
    {
      Failure(error)
    }

    function Extract(): T
      requires Success?
    {
      value
    }
  }

  // ---------------------------------------------------------------------------
  // Strings
  // ---------------------------------------------------------------------------

  /** An ECMAScript string is a sequence of 16-bit code units. */
  type CodeUnit = u: int | 0 <= u < 0x1_0000
  type Str = seq<CodeUnit>

  predicate IsHighSurrogate(u: int) { 0xD800 <= u <= 0xDBFF }
  predicate IsLowSurrogate(u: int) { 0xDC00 <= u <= 0xDFFF }

  /** True when the code units at i and i + 1 form a surrogate pair. */
  predicate PairAt(s: Str, i: nat)
    requires i < |s|
  {
    i + 1 < |s| && IsHighSurrogate(s[i]) && IsLowSurrogate(s[i + 1])
  }

  /** The CodePointAt operation: the code point that starts at position i,
      combining a surrogate pair and returning a lone surrogate as it is. */
  function CodePointAt(s: Str, i: nat): (cp: nat)
    requires i < |s|
    ensures cp <= 0x10FFFF
    ensures !PairAt(s, i) <==> cp == s[i]
    ensures PairAt(s, i) <==> cp >= 0x1_0000
  {
    if PairAt(s, i) then (s[i] as int - 0xD800) * 0x400 + (s[i + 1] as int - 0xDC00) + 0x1_0000
    else s[i]
  }

  /** UTF-16 encoding of one Unicode scalar value. */
  function Utf16(cp: nat): (s: Str)
    requires cp <= 0x10FFFF && !(0xD800 <= cp <= 0xDFFF)
    ensures 1 <= |s| <= 2
  {
    if cp < 0x1_0000 then [cp]
    else [0xD800 + (cp - 0x1_0000) / 0x400, 0xDC00 + (cp - 0x1_0000) % 0x400]
  }

  /** CodePointAt decodes what Utf16 encodes, whatever follows it. */
  lemma CodePointAtUtf16(cp: nat, rest: Str)
    requires cp <= 0x10FFFF && !(0xD800 <= cp <= 0xDFFF)
    ensures CodePointAt(Utf16(cp) + rest, 0) == cp
  {
    var s := Utf16(cp) + rest;
    if cp >= 0x1_0000 {
      assert PairAt(s, 0);
    } else {
      assert s[0] == cp;
    }
  }

  /** The String iterator (what Array.from walks): one element per code
      point, a surrogate pair staying together as a two-unit string wherever
      it occurs, and a one-unit piece never the first half of a pair with
      the next piece. */
  function Split(s: Str): (parts: seq<Str>)
    ensures forall i :: 0 <= i < |parts| ==> 1 <= |parts[i]| <= 2
    ensures forall i :: 0 <= i < |parts| ==> (|parts[i]| == 2 <==> PairAt(parts[i], 0))
    ensures forall i :: 0 <= i < |parts| - 1 && |parts[i]| == 1 ==>
      !(IsHighSurrogate(parts[i][0]) && IsLowSurrogate(parts[i + 1][0]))
    decreases |s|
  {
    if s == [] then []
    else
      var n := if PairAt(s, 0) then 2 else 1;
      var rest := Split(s[n..]);
      assert forall i :: 1 <= i < 1 + |rest| ==> ([s[..n]] + rest)[i] == rest[i - 1];
      [s[..n]] + rest
  }

  /** A supplementary-plane character is one surrogate pair, and the
      iterator hands it back whole as the only piece. */
  lemma SplitSupplementary(cp: nat)
    requires 0x1_0000 <= cp <= 0x10FFFF
    ensures Split(Utf16(cp)) == [Utf16(cp)]
  {
    var s := Utf16(cp);
    var v := cp - 0x1_0000;
    assert v / 0x400 < 0x400;
    assert IsHighSurrogate(s[0]) && IsLowSurrogate(s[1]);
    assert s[..2] == s && s[2..] == [];
  }

  function Concat(parts: seq<Str>): Str {
    if parts == [] then [] else parts[0] + Concat(parts[1..])
  }

  /** The iterator loses and adds nothing: its pieces concatenate back to s. */
  lemma {:induction false} SplitConcat(s: Str)
    ensures Concat(Split(s)) == s
    decreases |s|
  {
    if s != [] {
      var n := if PairAt(s, 0) then 2 else 1;
      SplitConcat(s[n..]);
      assert Split(s) == [s[..n]] + Split(s[n..]);
      assert s[..n] + s[n..] == s;
    }
  }

  /** No two adjacent code units of s form a surrogate pair. */
  predicate NoSurrogatePair(s: Str) {
    forall i :: 0 <= i < |s| ==> !PairAt(s, i)
  }

  /** Without surrogate pairs the iterator yields one-unit strings, in order. */
  lemma {:induction false} SplitWithoutPairs(s: Str)
    requires NoSurrogatePair(s)
    ensures |Split(s)| == |s|
    ensures forall i :: 0 <= i < |s| ==> Split(s)[i] == [s[i]]
    decreases |s|
  {
    if s != [] {
      assert !PairAt(s, 0);
      var t := s[1..];
      assert forall i :: 0 <= i < |t| ==> PairAt(t, i) == PairAt(s, i + 1);
      SplitWithoutPairs(t);
      assert Split(s) == [s[..1]] + Split(t);
    }
  }

  // ---------------------------------------------------------------------------
  // Number::toString(radix)
  // ---------------------------------------------------------------------------

  const Digits: seq<char> := "0123456789abcdef"

  /** The digits of n in the given radix, lower-case, without leading zeros. */
  function NumberToString(n: nat, radix: nat): (s: seq<char>)
    requires 2 <= radix <= 16
    ensures 1 <= |s|
    decreases n
  {
    if n < radix then [Digits[n]]
    else
      var q := n / radix;
      DivLess(n, radix);
      DivBound(n, radix, 1);
      NumberToString(q, radix) + [Digits[n % radix]]
  }

  /** Number::toString writes only digits below the radix, and no leading
      zero unless n is zero. */
  lemma {:induction false} NumberToStringDigits(n: nat, radix: nat)
    requires 2 <= radix <= 16
    ensures var s := NumberToString(n, radix);
      (forall i :: 0 <= i < |s| ==> s[i] in Digits[..radix]) &&
      (n > 0 ==> s[0] != '0')
    decreases n
  {
    var s := NumberToString(n, radix);
    if n < radix {
      assert s == [Digits[n]];
      DigitBelow(n, radix);
    } else {
      var q, d := n / radix, n % radix;
      DivLess(n, radix);
      DivBound(n, radix, 1);
      NumberToStringDigits(q, radix);
      var init := NumberToString(q, radix);
      assert s == init + [Digits[d]];
      DigitBelow(d, radix);
      forall i | 0 <= i < |s| ensures s[i] in Digits[..radix] {
        if i < |init| {
          assert s[i] == init[i];
        }
      }
      assert s[0] == init[0];
    }
  }

  lemma DigitBelow(d: nat, radix: nat)
    requires d < radix <= 16
    ensures Digits[d] in Digits[..radix]
    ensures d > 0 ==> Digits[d] != '0'
  {
    assert Digits[..radix][d] == Digits[d];
  }

  /** The value of one lower-case digit character. */
  function DigitValue(c: char): nat {
    if '0' <= c <= '9' then c as int - '0' as int
    else if 'a' <= c <= 'f' then c as int - 'a' as int + 10
    else 0
  }

  /** The number a digit string denotes in the given radix. */
  function ParseDigits(s: seq<char>, radix: nat): nat {
    if s == [] then 0
    else ParseDigits(s[..|s| - 1], radix) * radix + DigitValue(s[|s| - 1])
  }

  lemma DigitValueOf(d: nat)
    requires d < 16
    ensures DigitValue(Digits[d]) == d
  {
  }

  /** Number::toString is undone by reading the digits back. */
  lemma {:induction false} NumberToStringRoundTrip(n: nat, radix: nat)
    requires 2 <= radix <= 16
    ensures ParseDigits(NumberToString(n, radix), radix) == n
    decreases n
  {
    if n >= radix {
      DivLess(n, radix);
      NumberToStringRoundTrip(n / radix, radix);
      RoundTripStep(n, radix);
    } else {
      assert NumberToString(n, radix) == [] + [Digits[n]];
      ParseAppend([], Digits[n], radix);
      DigitValueOf(n);
    }
  }

  lemma RoundTripStep(n: nat, radix: nat)
    requires 2 <= radix <= 16 && radix <= n
    requires ParseDigits(NumberToString(n / radix, radix), radix) == n / radix
    ensures ParseDigits(NumberToString(n, radix), radix) == n
  {
    var q, d := n / radix, n % radix;
    var init := NumberToString(q, radix);
    assert NumberToString(n, radix) == init + [Digits[d]];
    ParseAppend(init, Digits[d], radix);
    DigitValueOf(d);
    DivMod(n, radix);
  }

  /** Appending a digit shifts the value by one place. */
  lemma ParseAppend(s: seq<char>, c: char, radix: nat)
    ensures ParseDigits(s + [c], radix) == ParseDigits(s, radix) * radix + DigitValue(c)
  {
    assert (s + [c])[..|s|] == s;
  }

  /** n zero digits. */
  function Zeros(n: nat): (z: seq<char>)
    ensures |z| == n && forall i :: 0 <= i < n ==> z[i] == '0'
  {
    seq(n, _ => '0')
  }

  /** Leading zeros do not change the value of a digit string. */
  lemma {:induction false} ParseLeadingZeros(z: nat, s: seq<char>, radix: nat)
    ensures ParseDigits(Zeros(z) + s, radix) == ParseDigits(s, radix)
    decreases |s|
  {
    var zs: seq<char> := Zeros(z);
    if s == [] {
      ParseZeros(z, radix);
      assert zs + s == zs;
    } else {
      ParseLeadingZeros(z, s[..|s| - 1], radix);
      assert (zs + s)[..|zs + s| - 1] == zs + s[..|s| - 1];
    }
  }

  lemma {:induction false} ParseZeros(z: nat, radix: nat)
    ensures ParseDigits(Zeros(z), radix) == 0
  {
    if z > 0 {
      ParseZeros(z - 1, radix);
      assert Zeros(z)[..z - 1] == Zeros(z - 1);
    }
  }

  function Pow(b: nat, k: nat): nat {
    if k == 0 then 1 else b * Pow(b, k - 1)
  }

  /** n has at most k digits in the radix exactly when n < radix^k. */
  lemma {:induction false} NumberToStringLength(n: nat, radix: nat, k: nat)
    requires 2 <= radix <= 16 && 1 <= k
    ensures |NumberToString(n, radix)| <= k <==> n < Pow(radix, k)
    decreases n
  {
    if n < radix {
      PowAtLeastBase(radix, k);
    } else if k == 1 {
      NumberToStringUnfold(n, radix);
      assert Pow(radix, 1) == radix;
    } else {
      DivLess(n, radix);
      NumberToStringLength(n / radix, radix, k - 1);
      LengthStep(n, radix, k);
    }
  }

  lemma LengthStep(n: nat, radix: nat, k: nat)
    requires 2 <= radix <= 16 && 2 <= k && radix <= n
    requires |NumberToString(n / radix, radix)| <= k - 1 <==> n / radix < Pow(radix, k - 1)
    ensures |NumberToString(n, radix)| <= k <==> n < Pow(radix, k)
  {
    var p := Pow(radix, k - 1);
    NumberToStringUnfold(n, radix);
    DivBound(n, radix, p);
    assert Pow(radix, k) == radix * p;
  }

  lemma DivLess(n: nat, d: nat)
    requires 2 <= d && 1 <= n
    ensures n / d < n
  {
    MulMonotone(n, 2, d);
    assert n < n * 2 <= n * d;
    assert n * d == d * n;
    DivBound(n, d, n);
  }

  lemma NumberToStringUnfold(n: nat, radix: nat)
    requires 2 <= radix <= 16 && radix <= n
    ensures |NumberToString(n, radix)| == |NumberToString(n / radix, radix)| + 1
  {
  }

  lemma {:induction false} PowAtLeastBase(b: nat, k: nat)
    requires 2 <= b && 1 <= k
    ensures b <= Pow(b, k)
  {
    if k > 1 {
      PowAtLeastBase(b, k - 1);
    }
  }

  lemma DivMod(n: nat, d: nat)
    requires 0 < d
    ensures n == (n / d) * d + n % d
  {
    var q, r := n / d, n % d;
    assert n == d * q + r;
    assert d * q == q * d;
  }

  lemma DivBound(n: nat, d: nat, m: nat)
    requires 0 < d
    ensures n / d < m <==> n < d * m
  {
    var q, r := n / d, n % d;
    assert n == d * q + r && 0 <= r < d;
    if q < m {
      MulMonotone(d, q + 1, m);
      assert d * (q + 1) == d * q + d;
    } else {
      MulMonotone(d, m, q);
    }
  }

  lemma MulMonotone(d: nat, a: nat, b: nat)
    requires a <= b
    ensures d * a <= d * b
  {
    assert d * b == d * a + d * (b - a);
  }

  // ---------------------------------------------------------------------------
  // String.prototype.repeat and String.prototype.padStart
  // ---------------------------------------------------------------------------

  /** s.repeat(count): a RangeError for a negative count, otherwise count
      copies of s. */
  function Repeat(s: seq<char>, count: int): (r: Result<seq<char>>)
    ensures r.Success? <==> count >= 0
    ensures r.Failure? ==> r.error == RangeError
    ensures r.Success? ==> |r.value| == |s| * count
    ensures r.Success? ==> forall i :: 0 <= i < |r.value| ==> r.value[i] in s
    decreases if count < 0 then 0 else count
  {
    if count < 0 then Failure(RangeError)
    else if count == 0 then Success([])
    else Success(Repeat(s, count - 1).value + s)
  }

  /** The result of repeat is count copies of s: its character at i is the
      one at i modulo |s| of s. */
  lemma {:induction false} RepeatCopies(s: seq<char>, count: nat)
    requires s != []
    ensures forall i :: 0 <= i < |Repeat(s, count).value| ==> Repeat(s, count).value[i] == s[i % |s|]
  {
    if count > 0 {
      var init := Repeat(s, count - 1).value;
      var r := Repeat(s, count).value;
      RepeatCopies(s, count - 1);
      assert r == init + s;
      forall i | 0 <= i < |r|
        ensures r[i] == s[i % |s|]
      {
        if i >= |init| {
          ModShift(i, |s|, count - 1);
        }
      }
    }
  }

  /** An index in the k-th block of m positions is its offset in the block, modulo m. */
  lemma ModShift(i: nat, m: nat, k: nat)
    requires 0 < m && m * k <= i < m * k + m
    ensures i % m == i - m * k
  {
    var q, j := i / m, i % m;
    assert i == m * q + j;
    if q < k {
      MulMonotone(m, q + 1, k);
      assert false;
    }
    if k < q {
      MulMonotone(m, k + 1, q);
      assert false;
    }
  }


  /** s.padStart(maxLength, fill), the StringPad operation: nothing to do
      when s is long enough or fill is empty; otherwise fill is repeated and
      then truncated so that the result is exactly maxLength long. */
  function PadStart(s: seq<char>, maxLength: nat, fill: seq<char>): (r: seq<char>)
    ensures fill != [] ==> |r| == if maxLength <= |s| then |s| else maxLength
    ensures fill == [] ==> r == s
    ensures |s| <= |r| && r[|r| - |s|..] == s
    ensures forall i :: 0 <= i < |r| - |s| ==> r[i] == fill[i % |fill|]
  {
    if maxLength <= |s| || fill == [] then s
    else seq(maxLength - |s|, i requires 0 <= i => fill[i % |fill|]) + s
  }

  // ---------------------------------------------------------------------------
  // Object.assign({}, ...sources) over plain records
  // ---------------------------------------------------------------------------

  /** Copies the sources' keys in order into one record, a later source
      overwriting an earlier one's value for the same key. */
  function Assign<K(!new), V>(sources: seq<map<K, V>>): (r: map<K, V>)
    ensures forall k, i :: 0 <= i < |sources| && k in sources[i] ==> k in r
    ensures forall k :: k in r ==> exists i :: 0 <= i < |sources| && k in sources[i] && r[k] == sources[i][k]
  {
    if sources == [] then map[]
    else
      var init := sources[..|sources| - 1];
      assert forall i :: 0 <= i < |init| ==> init[i] == sources[i];
      Assign(init) + sources[|sources| - 1]
  }

  /** The value Assign keeps for a key is the one of the last source holding it. */
  lemma {:induction false} AssignLastWins<K(!new), V>(sources: seq<map<K, V>>, k: K, i: nat)
    requires i < |sources| && k in sources[i]
    requires forall j :: i < j < |sources| ==> k !in sources[j]
    ensures k in Assign(sources) && Assign(sources)[k] == sources[i][k]
  {
    var last := |sources| - 1;
    var init := sources[..last];
    var merged := Assign(init);
    assert Assign(sources) == merged + sources[last];
    if i < last {
      assert k !in sources[last];
      forall j | i < j < |init| ensures k !in init[j] {
        assert init[j] == sources[j];
      }
      assert init[i] == sources[i];
      AssignLastWins(init, k, i);
      assert k in merged && merged[k] == sources[i][k];
    }
  }
}
