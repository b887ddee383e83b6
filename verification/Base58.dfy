/**
Base58 as positional conversion between base 58 and base 256, where every leading
zero digit stands for itself.
 */
module Base58 {
  import opened Basics
  import opened Arithmetic

  /** The 58 characters in order, in runs of consecutive code points: no 0, O, I or l. */
  const ALPHABET := "123456789" + "ABCDEFGH" + "JKLMN" + "PQRSTUVWXYZ" + "abcdefghijk" + "mnopqrstuvwxyz"

  // ---------- Positional notation, most significant digit first ----------

  function Value(ds: seq<nat>, b: nat): nat
  {
    if ds == [] then 0 else Value(ds[..|ds| - 1], b) * b + ds[|ds| - 1]
  }

  /** The digits of `n` without leading zeros; none for zero. */
  function Digits(n: nat, b: nat): (ds: seq<nat>)
    requires b >= 2
    ensures ds != [] ==> ds[0] != 0
    ensures forall d :: d in ds ==> d < b
    ensures n == 0 <==> ds == []
    decreases n
  {
    if n == 0 then []
    else
      QuotientSmaller(n, b);
      Digits(n / b, b) + [n % b]
  }

  lemma QuotientSmaller(n: nat, b: nat)
    requires n > 0 && b >= 2
    ensures n / b < n
  {
    var q := n / b;
    DivMod(n, b);
    assert 2 * q <= q * b by { MulMono(2, b, q); }
  }

  lemma {:induction false} ValueOfDigits(n: nat, b: nat)
    requires b >= 2
    ensures Value(Digits(n, b), b) == n
    decreases n
  {
    if n != 0 {
      QuotientSmaller(n, b);
      ValueOfDigits(n / b, b);
      DivMod(n, b);
      ValueSnoc(Digits(n / b, b), n % b, b);
    }
  }

  lemma ValueSnoc(ds: seq<nat>, d: nat, b: nat)
    ensures Value(ds + [d], b) == Value(ds, b) * b + d
  {
    assert (ds + [d])[..|ds|] == ds;
  }

  lemma {:induction false} DigitsOfValue(ds: seq<nat>, b: nat)
    requires b >= 2 && forall d :: d in ds ==> d < b
    requires ds != [] ==> ds[0] != 0
    ensures Digits(Value(ds, b), b) == ds
    decreases |ds|
  {
    hide Value, Digits;
    if ds == [] {
      ValueEmpty(b);
    } else {
      var init, last := ds[..|ds| - 1], ds[|ds| - 1];
      assert forall d :: d in init ==> d in ds;
      assert last in ds && init + [last] == ds;
      DigitsOfValue(init, b);
      ValueSnoc(init, last, b);
      ValueEmpty(b);
      assert Value(init, b) == 0 ==> init == [];
      DigitsSnoc(Value(init, b), last, b);
    }
  }

  lemma ValueEmpty(b: nat)
    requires b >= 2
    ensures Value([], b) == 0 && Digits(0, b) == []
  {
  }

  lemma DigitsSnoc(v: nat, d: nat, b: nat)
    requires b >= 2 && d < b && (v > 0 || d > 0)
    ensures Digits(v * b + d, b) == Digits(v, b) + [d]
  {
    hide Digits;
    var n := v * b + d;
    DivModUnique(n, v, d, b);
    if v > 0 {
      MulMono(1, v, b);
    }
    DigitsUnfold(n, b);
  }

  lemma DigitsUnfold(n: nat, b: nat)
    requires b >= 2 && n > 0
    ensures Digits(n, b) == Digits(n / b, b) + [n % b]
  {
  }

  // ---------- Conversion that keeps leading zeros ----------

  function LeadingZeros(ds: seq<nat>): (k: nat)
    ensures k <= |ds|
    ensures forall i :: 0 <= i < k ==> ds[i] == 0
    ensures k < |ds| ==> ds[k] != 0
  {
    if ds == [] || ds[0] != 0 then 0 else 1 + LeadingZeros(ds[1..])
  }

  function Zeros(k: nat): seq<nat>
  {
    seq(k, _ => 0)
  }

  function Convert(ds: seq<nat>, from: nat, to: nat): (r: seq<nat>)
    requires to >= 2
    ensures forall d :: d in r ==> d < to
  {
    var k := LeadingZeros(ds);
    Zeros(k) + Digits(Value(ds[k..], from), to)
  }

  lemma {:induction false} LeadingZerosOf(k: nat, ds: seq<nat>)
    requires ds != [] ==> ds[0] != 0
    ensures LeadingZeros(Zeros(k) + ds) == k
  {
    if k == 0 {
      assert Zeros(k) + ds == ds;
    } else {
      assert (Zeros(k) + ds)[1..] == Zeros(k - 1) + ds;
      LeadingZerosOf(k - 1, ds);
    }
  }

  /** Converting to another base and back gives the same digits. */
  lemma ConvertBack(ds: seq<nat>, from: nat, to: nat)
    requires from >= 2 && to >= 2 && forall d :: d in ds ==> d < from
    ensures Convert(Convert(ds, from, to), to, from) == ds
  {
    hide Value, Digits, LeadingZeros;
    var k := LeadingZeros(ds);
    var n := Value(ds[k..], from);
    var r := Digits(n, to);
    LeadingZerosOf(k, r);
    assert (Zeros(k) + r)[k..] == r;
    ValueOfDigits(n, to);
    assert forall d :: d in ds[k..] ==> d in ds;
    DigitsOfValue(ds[k..], from);
    assert Zeros(k) + ds[k..] == ds;
  }

  // ---------- Characters ----------

  predicate IsDigit(c: char)
  {
    c in ALPHABET
  }

  /** Position of a character in the alphabet, range by range. */
  function IndexOf(c: char): (i: nat)
  {
    var n := c as int;
    if '1' <= c <= '9' then n - '1' as int
    else if 'A' <= c <= 'H' then n - 'A' as int + 9
    else if 'J' <= c <= 'N' then n - 'J' as int + 17
    else if 'P' <= c <= 'Z' then n - 'P' as int + 22
    else if 'a' <= c <= 'k' then n - 'a' as int + 33
    else if 'm' <= c <= 'z' then n - 'm' as int + 44
    else 0
  }

  lemma AlphabetAt(i: nat)
    requires i < |ALPHABET|
    ensures |ALPHABET| == 58 && IndexOf(ALPHABET[i]) == i
  {
    if i < 22 {
      FirstRuns(i);
    } else if i < 33 {
      assert ALPHABET[i] == "PQRSTUVWXYZ"[i - 22];
    } else {
      LastRuns(i);
    }
  }

  lemma FirstRuns(i: nat)
    requires i < 22
    ensures IndexOf(ALPHABET[i]) == i
  {
    if i < 9 {
      assert ALPHABET[i] == "123456789"[i];
    } else if i < 17 {
      assert ALPHABET[i] == "ABCDEFGH"[i - 9];
    } else {
      assert ALPHABET[i] == "JKLMN"[i - 17];
    }
  }

  lemma LastRuns(i: nat)
    requires 33 <= i < 58
    ensures IndexOf(ALPHABET[i]) == i
  {
    if i < 44 {
      assert ALPHABET[i] == "abcdefghijk"[i - 33];
    } else {
      assert ALPHABET[i] == "mnopqrstuvwxyz"[i - 44];
    }
  }

  lemma IndexInAlphabet(c: char)
    requires IsDigit(c)
    ensures IndexOf(c) < 58 && ALPHABET[IndexOf(c)] == c
  {
    var i :| 0 <= i < |ALPHABET| && ALPHABET[i] == c;
    AlphabetAt(i);
  }

  /** The digits, the upper-case letters but I and O, and the lower-case letters but l. */
  predicate InRuns(c: char)
  {
    || '1' <= c <= '9'
    || ('A' <= c <= 'Z' && c != 'I' && c != 'O')
    || ('a' <= c <= 'z' && c != 'l')
  }

  lemma AlphabetInRuns(i: nat)
    requires i < 58
    ensures |ALPHABET| == 58 && InRuns(ALPHABET[i])
  {
    assert ALPHABET[0] == '1';
    AlphabetAt(i);
  }

  /** The alphabet has exactly these characters. */
  lemma AlphabetIs(c: char)
    ensures IsDigit(c) <==> InRuns(c)
  {
    hide InRuns;
    if IsDigit(c) {
      IndexInAlphabet(c);
      AlphabetInRuns(IndexOf(c));
    }
    if InRuns(c) {
      InRunsHasPlace(c);
    }
  }

  lemma InRunsHasPlace(c: char)
    requires InRuns(c)
    ensures IsDigit(c)
  {
    var i := IndexOf(c);
    assert i < 58;
    AlphabetAt(i);
    AlphabetInRuns(i);
    SameIndex(c, ALPHABET[i]);
    hide *;
    assert ALPHABET[i] == c;
  }

  lemma SameIndex(c: char, d: char)
    requires InRuns(c) && InRuns(d) && IndexOf(c) == IndexOf(d)
    ensures c == d
  {
  }

  /** A character with a smaller code point has a smaller index, so an index is the rank in the alphabet. */
  lemma IndexIsRank(c: char, d: char)
    requires IsDigit(c) && IsDigit(d)
    ensures c < d <==> IndexOf(c) < IndexOf(d)
    ensures IndexOf(c) < 58
  {
    AlphabetIs(c);
    AlphabetIs(d);
    hide IsDigit;
  }

  predicate IsBase58(s: string)
  {
    s != [] && forall c :: c in s ==> IsDigit(c)
  }

  function Indices(s: string): seq<nat>
  {
    seq(|s|, i requires 0 <= i < |s| => IndexOf(s[i]))
  }

  function Chars(ds: seq<nat>): string
    requires forall d :: d in ds ==> d < 58
  {
    seq(|ds|, i requires 0 <= i < |ds| => assert ds[i] in ds; ALPHABET[ds[i]])
  }

  function AsBytes(ds: seq<nat>): (r: seq<Byte>)
    requires forall d :: d in ds ==> d < 256
    ensures r == ds
  {
    if ds == [] then []
    else
      assert ds[0] in ds;
      assert forall d :: d in ds[1..] ==> d in ds;
      var b: Byte := ds[0];
      [b] + AsBytes(ds[1..])
  }

  function Decode(s: string): seq<Byte>
  {
    AsBytes(Convert(Indices(s), 58, 256))
  }

  function Encode(bytes: seq<Byte>): string
  {
    Chars(Convert(bytes, 256, 58))
  }

  lemma EncodeDecode(bytes: seq<Byte>)
    ensures Decode(Encode(bytes)) == bytes
  {
    var ds := Convert(bytes, 256, 58);
    forall i | 0 <= i < |ds|
      ensures IndexOf(Chars(ds)[i]) == ds[i]
    {
      assert ds[i] in ds;
      AlphabetAt(ds[i]);
    }
    assert Indices(Chars(ds)) == ds;
    ConvertBack(bytes, 256, 58);
  }

  lemma DecodeEncode(s: string)
    requires IsBase58(s)
    ensures Encode(Decode(s)) == s
  {
    var ds := Indices(s);
    forall i | 0 <= i < |s|
      ensures ds[i] < 58 && ALPHABET[ds[i]] == s[i]
    {
      assert s[i] in s;
      IndexInAlphabet(s[i]);
    }
    ConvertBack(ds, 58, 256);
    var r := Convert(ds, 58, 256);
    assert Chars(ds) == s;
  }

  /** Distinct Base58 strings denote distinct byte strings. */
  lemma DecodeInjective(s: string, t: string)
    requires IsBase58(s) && IsBase58(t) && Decode(s) == Decode(t)
    ensures s == t
  {
    DecodeEncode(s);
    DecodeEncode(t);
  }

  // ---------- What decoding computes ----------

  lemma {:induction false} ValueOfZeros(k: nat, ds: seq<nat>, b: nat)
    ensures Value(Zeros(k) + ds, b) == Value(ds, b)
    decreases k + |ds|
  {
    if ds != [] {
      var init, last := ds[..|ds| - 1], ds[|ds| - 1];
      ValueOfZeros(k, init, b);
      assert Zeros(k) + ds == (Zeros(k) + init) + [last];
      ValueSnoc(Zeros(k) + init, last, b);
      assert ds == init + [last];
      ValueSnoc(init, last, b);
    } else if k > 0 {
      ValueOfZeros(k - 1, [], b);
      assert Zeros(k) + [] == (Zeros(k - 1) + []) + [0];
      ValueSnoc(Zeros(k - 1) + [], 0, b);
    }
  }

  lemma ConvertKeepsValue(ds: seq<nat>, from: nat, to: nat)
    requires from >= 2 && to >= 2
    ensures Value(Convert(ds, from, to), to) == Value(ds, from)
    ensures LeadingZeros(Convert(ds, from, to)) == LeadingZeros(ds)
  {
    hide Value, Digits, LeadingZeros;
    var k := LeadingZeros(ds);
    var n := Value(ds[k..], from);
    ValueOfZeros(k, Digits(n, to), to);
    ValueOfDigits(n, to);
    ValueOfZeros(k, ds[k..], from);
    assert Zeros(k) + ds[k..] == ds;
    LeadingZerosOf(k, Digits(n, to));
  }

  lemma OneIsZero(c: char)
    requires IsDigit(c)
    ensures IndexOf(c) == 0 <==> c == '1'
  {
    AlphabetIs(c);
    hide IsDigit;
  }

  /** The decoded bytes, read in base 256, have the value of the text read in base 58, and as many leading zeros as the text has leading 1. */
  lemma DecodeIsPositional(s: string)
    ensures Value(Decode(s), 256) == Value(Indices(s), 58)
    ensures LeadingZeros(Decode(s)) == LeadingZeros(Indices(s))
    ensures forall i :: 0 <= i < |s| && IsDigit(s[i]) ==> (Indices(s)[i] == 0 <==> s[i] == '1')
  {
    hide IsDigit, IndexOf, Value, LeadingZeros, Convert;
    ConvertKeepsValue(Indices(s), 58, 256);
    forall i | 0 <= i < |s| && IsDigit(s[i])
      ensures Indices(s)[i] == 0 <==> s[i] == '1'
    {
      OneIsZero(s[i]);
    }
  }

  /** The first difference decides, the smaller element first. */
  ghost predicate Below(a: seq<int>, b: seq<int>)
  {
    exists k: nat :: DiffersAt(a, b, k) && a[k] < b[k]
  }

  ghost predicate DiffersAt(a: seq<int>, b: seq<int>, k: nat)
  {
    k < |a| && k < |b| && a[..k] == b[..k] && a[k] != b[k]
  }

  lemma ValueStep(x: nat, y: nat, p: nat, q: nat, b: nat)
    requires p < b && (x < y || (x == y && p < q))
    ensures x * b + p < y * b + q
  {
    if x < y {
      MulMono(x + 1, y, b);
    }
  }

  lemma {:induction false} ValueOrder(a: seq<nat>, c: seq<nat>, b: nat)
    requires |a| == |c| && b >= 2 && (forall d :: d in a ==> d < b) && (forall d :: d in c ==> d < b)
    ensures Below(a, c) ==> Value(a, b) < Value(c, b)
    decreases |a|
  {
    hide Value;
    if a != [] && Below(a, c) {
      var n := |a| - 1;
      BelowSnoc(a, c);
      hide Below;
      var x, y := a[..n], c[..n];
      assert a == x + [a[n]] && c == y + [c[n]] && a[n] in a;
      assert forall d :: d in x ==> d in a;
      assert forall d :: d in y ==> d in c;
      ValueOrder(x, y, b);
      ValueSnoc(x, a[n], b);
      ValueSnoc(y, c[n], b);
      ValueStep(Value(x, b), Value(y, b), a[n], c[n], b);
    }
  }

  lemma {:induction false} Comparable(a: seq<int>, c: seq<int>)
    requires |a| == |c|
    ensures a == c || Below(a, c) || Below(c, a)
    decreases |a|
  {
    if a != [] {
      var n := |a| - 1;
      Comparable(a[..n], c[..n]);
      BelowSnoc(a, c);
      BelowSnoc(c, a);
      hide Below;
      assert a == a[..n] + [a[n]] && c == c[..n] + [c[n]];
    }
  }

  lemma BelowSnoc(a: seq<int>, c: seq<int>)
    requires |a| == |c| > 0
    ensures var n := |a| - 1;
            Below(a, c) <==> Below(a[..n], c[..n]) || (a[..n] == c[..n] && a[n] < c[n])
  {
    var n := |a| - 1;
    if Below(a, c) {
      var k: nat :| DiffersAt(a, c, k) && a[k] < c[k];
      if k < n {
        assert a[..n][..k] == a[..k] && c[..n][..k] == c[..k];
        assert DiffersAt(a[..n], c[..n], k);
      }
    }
    if Below(a[..n], c[..n]) {
      var k: nat :| DiffersAt(a[..n], c[..n], k) && a[..n][k] < c[..n][k];
      assert a[..n][..k] == a[..k] && c[..n][..k] == c[..k];
      assert DiffersAt(a, c, k);
    }
    if a[..n] == c[..n] && a[n] < c[n] {
      assert DiffersAt(a, c, n);
    }
  }

  /** The code points of a text. */
  function Codes(s: string): seq<int>
  {
    seq(|s|, i requires 0 <= i < |s| => s[i] as int)
  }

  lemma TextOrder(s: string, t: string)
    requires IsBase58(s) && IsBase58(t) && |s| == |t|
    ensures Below(Codes(s), Codes(t)) ==> Below(Indices(s), Indices(t))
  {
    if Below(Codes(s), Codes(t)) {
      var k: nat :| DiffersAt(Codes(s), Codes(t), k) && Codes(s)[k] < Codes(t)[k];
      forall i | 0 <= i < k
        ensures s[i] == t[i]
      {
        assert Codes(s)[..k][i] == Codes(t)[..k][i];
      }
      assert s[k] in s && t[k] in t;
      IndexIsRank(s[k], t[k]);
      assert Indices(s)[..k] == Indices(t)[..k];
      assert DiffersAt(Indices(s), Indices(t), k);
    }
  }

  /** Among texts of one length whose bytes have one length, the order of the texts is the order of the bytes. */
  lemma DecodeKeepsOrder(s: string, t: string)
    requires IsBase58(s) && IsBase58(t) && |s| == |t| && |Decode(s)| == |Decode(t)| && Below(Codes(s), Codes(t))
    ensures Below(Decode(s), Decode(t))
  {
    TextOrder(s, t);
    DecodeIsPositional(s);
    DecodeIsPositional(t);
    IndicesSmall(s);
    IndicesSmall(t);
    hide Value, Below, Decode, Indices;
    ValueOrder(Indices(s), Indices(t), 58);
    ValueOrder(Decode(t), Decode(s), 256);
    Comparable(Decode(s), Decode(t));
  }

  lemma IndicesSmall(s: string)
    requires IsBase58(s)
    ensures |Indices(s)| == |s| && forall d :: d in Indices(s) ==> d < 58
  {
    forall i | 0 <= i < |s|
      ensures Indices(s)[i] < 58
    {
      assert s[i] in s;
      IndexInAlphabet(s[i]);
    }
  }
}
