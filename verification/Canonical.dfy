/**
Canonical keys for ballots and stored rows: one form per value.

A string is a sequence of Unicode code points. The Keccak digest that decides the
letter case of an EIP-55 address is a parameter `nibble`: every statement holds for
every such function.
 */
module Canonical {
  import opened Basics
  import opened Base58

  // ---------- Trimming ----------

  /** White space as `unicode.IsSpace` knows it. */
  predicate IsSpace(c: char)
  {
    var n := c as int;
    || 9 <= n <= 13 || n == 32 || n == 0x85 || n == 0xA0 || n == 0x1680
    || 0x2000 <= n <= 0x200a || n == 0x2028 || n == 0x2029 || n == 0x202f || n == 0x205f || n == 0x3000
  }

  function TrimLeft(s: string): (r: string)
    ensures r != [] ==> !IsSpace(r[0])
    ensures |r| <= |s| && r == s[|s| - |r|..]
  {
    if s != [] && IsSpace(s[0]) then TrimLeft(s[1..]) else s
  }

  function TrimRight(s: string): (r: string)
    ensures r != [] ==> !IsSpace(r[|r| - 1])
    ensures |r| <= |s| && r == s[..|r|]
  {
    if s != [] && IsSpace(s[|s| - 1]) then TrimRight(s[..|s| - 1]) else s
  }

  function Trim(s: string): (r: string)
    ensures Tight(r)
  {
    TrimRight(TrimLeft(s))
  }

  /** No white space at either end. */
  predicate Tight(s: string)
  {
    s == [] || (!IsSpace(s[0]) && !IsSpace(s[|s| - 1]))
  }

  /** Trimming cuts white space at both ends and nothing else. */
  lemma TrimIs(s: string) returns (i: nat, j: nat)
    ensures i <= j <= |s| && Trim(s) == s[i..j] && Tight(s[i..j])
    ensures forall k :: 0 <= k < i || j <= k < |s| ==> IsSpace(s[k])
  {
    var t := TrimLeft(s);
    CutLeft(s);
    CutRight(t);
    i := |s| - |t|;
    j := i + |TrimRight(t)|;
  }

  lemma {:induction false} CutLeft(s: string)
    ensures forall k :: 0 <= k < |s| - |TrimLeft(s)| ==> IsSpace(s[k])
  {
    if s != [] && IsSpace(s[0]) {
      CutLeft(s[1..]);
    }
  }

  lemma {:induction false} CutRight(s: string)
    ensures forall k :: |TrimRight(s)| <= k < |s| ==> IsSpace(s[k])
  {
    if s != [] && IsSpace(s[|s| - 1]) {
      CutRight(s[..|s| - 1]);
    }
  }

  lemma TrimTight(s: string)
    requires Tight(s)
    ensures Trim(s) == s
  {
  }

  // ---------- Hexadecimal ----------

  predicate IsHexChar(c: char)
  {
    '0' <= c <= '9' || 'a' <= c <= 'f' || 'A' <= c <= 'F'
  }

  predicate AllHex(s: string)
  {
    forall i :: 0 <= i < |s| ==> IsHexChar(s[i])
  }

  function Nibble(c: char): (n: nat)
    requires IsHexChar(c)
    ensures n < 16
  {
    if c <= '9' then c as int - '0' as int
    else if c <= 'F' then c as int - 'A' as int + 10
    else c as int - 'a' as int + 10
  }

  function HexDigit(n: nat): (c: char)
    requires n < 16
    ensures IsHexChar(c) && Nibble(c) == n && !('A' <= c <= 'F')
  {
    if n < 10 then ('0' as int + n) as char else ('a' as int + n - 10) as char
  }

  /** Bytes of an even-length hexadecimal string, in either case. */
  function Unhex(s: string): (r: seq<Byte>)
    requires AllHex(s) && |s| % 2 == 0
    ensures |r| == |s| / 2
  {
    if s == [] then [] else [16 * Nibble(s[0]) + Nibble(s[1])] + Unhex(s[2..])
  }

  /** Lower-case hexadecimal. */
  function Hex(bytes: seq<Byte>): (s: string)
    ensures AllHex(s) && |s| == 2 * |bytes|
  {
    if bytes == [] then [] else [HexDigit(bytes[0] / 16), HexDigit(bytes[0] % 16)] + Hex(bytes[1..])
  }

  function LowerChar(c: char): char
  {
    if 'A' <= c <= 'Z' then (c as int + 32) as char else c
  }

  function Lower(s: string): (r: string)
    ensures |r| == |s|
  {
    seq(|s|, i requires 0 <= i < |s| => LowerChar(s[i]))
  }

  lemma {:induction false} UnhexHex(bytes: seq<Byte>)
    ensures Unhex(Hex(bytes)) == bytes
  {
    if bytes != [] {
      UnhexHex(bytes[1..]);
      assert Hex(bytes)[2..] == Hex(bytes[1..]);
    }
  }

  lemma HexDigitOfNibble(c: char)
    requires IsHexChar(c)
    ensures HexDigit(Nibble(c)) == LowerChar(c)
  {
  }

  /** The sixteen digits in both cases. */
  lemma HexTable(n: nat)
    requires n < 16
    ensures HexDigit(n) == "0123456789abcdef"[n]
    ensures IsHexChar("0123456789abcdef"[n]) && Nibble("0123456789abcdef"[n]) == n
    ensures IsHexChar("0123456789ABCDEF"[n]) && Nibble("0123456789ABCDEF"[n]) == n
  {
  }

  /** Each byte is printed as its high and its low digit. */
  lemma {:induction false} HexAt(bytes: seq<Byte>, i: nat)
    requires i < |bytes|
    ensures Hex(bytes)[2 * i] == "0123456789abcdef"[bytes[i] / 16]
    ensures Hex(bytes)[2 * i + 1] == "0123456789abcdef"[bytes[i] % 16]
  {
    if i == 0 {
      HexTable(bytes[0] / 16);
      HexTable(bytes[0] % 16);
    } else {
      HexAt(bytes[1..], i - 1);
    }
  }

  /** Lower-casing a hexadecimal string prints its bytes. */
  lemma {:induction false} LowerIsHex(s: string)
    requires AllHex(s) && |s| % 2 == 0
    ensures Lower(s) == Hex(Unhex(s))
    decreases |s|
  {
    if s != [] {
      LowerIsHex(s[2..]);
      HexDigitOfNibble(s[0]);
      HexDigitOfNibble(s[1]);
      assert Lower(s) == [LowerChar(s[0]), LowerChar(s[1])] + Lower(s[2..]);
      var b: nat := 16 * Nibble(s[0]) + Nibble(s[1]);
      assert b / 16 == Nibble(s[0]) && b % 16 == Nibble(s[1]);
    }
  }

  /** Body after an optional 0x or 0X, and whether it was there. */
  function Strip0x(s: string): (r: (string, bool))
    ensures r.1 ==> |s| == |r.0| + 2 && s[2..] == r.0 && s[0] == '0'
    ensures !r.1 ==> r.0 == s
  {
    if |s| >= 2 && s[0] == '0' && (s[1] == 'x' || s[1] == 'X') then (s[2..], true) else (s, false)
  }

  predicate IsHexString(s: string)
  {
    s != [] && |s| % 2 == 0 && AllHex(s)
  }

  // ---------- EIP-55 ----------

  /** Letter case by the digest of the lower-case address. */
  function Checksum(nibble: (string, nat) -> nat, h: string): (r: string)
    ensures |r| == |h|
  {
    seq(|h|, i requires 0 <= i < |h| =>
      if 'a' <= h[i] <= 'f' && nibble(h, i) > 7 then (h[i] as int - 32) as char else h[i])
  }

  lemma ChecksumKeepsBytes(nibble: (string, nat) -> nat, bytes: seq<Byte>)
    ensures AllHex(Checksum(nibble, Hex(bytes))) && Unhex(Checksum(nibble, Hex(bytes))) == bytes
  {
    var h := Hex(bytes);
    var c := Checksum(nibble, h);
    HexIsLower(bytes);
    assert Lower(c) == h;
    LowerIsHex(c);
    UnhexHex(Unhex(c));
    UnhexHex(bytes);
  }

  /** EIP-55: a letter of the lower-case address is upper-cased exactly when its digest nibble is at least 8. */
  lemma ChecksumCase(nibble: (string, nat) -> nat, bytes: seq<Byte>, i: nat)
    requires i < 2 * |bytes|
    ensures var h, c := Hex(bytes), Checksum(nibble, Hex(bytes));
            if 'a' <= h[i] <= 'f' && nibble(h, i) >= 8 then 'A' <= c[i] <= 'F' && c[i] as int + 32 == h[i] as int else c[i] == h[i]
  {
  }

  lemma {:induction false} HexIsLower(bytes: seq<Byte>)
    ensures forall i :: 0 <= i < |Hex(bytes)| ==> !('A' <= Hex(bytes)[i] <= 'F')
    ensures Lower(Hex(bytes)) == Hex(bytes)
  {
    UnhexHex(bytes);
    LowerIsHex(Hex(bytes));
    var h := Hex(bytes);
    forall i | 0 <= i < |h|
      ensures !('A' <= h[i] <= 'F')
    {
      assert Lower(h)[i] == h[i];
    }
  }

  // ---------- Strict canonicalizers ----------

  function CanonicalizeEVMAddress(nibble: (string, nat) -> nat, s: string): Option<string>
  {
    var body := Strip0x(Trim(s)).0;
    if |body| != 40 || !AllHex(body) then None
    else Some("0x" + Checksum(nibble, Hex(Unhex(body))))
  }

  function CanonicalizeEVMHash(s: string): Option<string>
  {
    var body := Strip0x(Trim(s)).0;
    if |body| != 64 || !IsHexString(body) then None else Some("0x" + Lower(body))
  }

  function CanonicalizeHexBlob(s: string): string
  {
    var t := Trim(s);
    if t == "" then ""
    else
      var body := Strip0x(t).0;
      if |body| % 2 == 0 && IsHexString(body) then "0x" + Lower(body) else t
  }

  function CanonicalizeSolanaValue(s: string): Option<string>
  {
    var t := Trim(s);
    var (body, had0x) := Strip0x(t);
    if had0x && |body| % 2 == 0 && IsHexString(body) then Some("0x" + Lower(body))
    else if IsBase58(t) then Some(t)
    else None
  }

  function CanonicalizeSolanaTxHash(s: string): Option<string>
  {
    match CanonicalizeSolanaValue(s)
    case None => None
    case Some(canon) =>
      if "0x" <= canon then Some(canon)
      else if |Decode(canon)| == 64 then Some("0x" + Hex(Decode(canon)))
      else Some(canon)
  }

  /** The part of a CAIP-2 chain id before its first colon, or nothing. */
  function Namespace(chain: string): string
  {
    BeforeColon(Trim(chain)).0
  }

  function BeforeColon(s: string): (r: (string, bool))
    ensures !r.1 ==> r.0 == ""
  {
    if s == [] then ("", false)
    else if s[0] == ':' then ("", true)
    else
      var (rest, found) := BeforeColon(s[1..]);
      if found then ([s[0]] + rest, true) else ("", false)
  }

  function AddressByNamespace(nibble: (string, nat) -> nat, chain: string, addr: string): Option<string>
  {
    var t := Trim(addr);
    if t == "" then Some("")
    else if Namespace(chain) == "eip155" then CanonicalizeEVMAddress(nibble, t)
    else if Namespace(chain) == "solana" then CanonicalizeSolanaValue(t)
    else Some(t)
  }

  function TxHashByNamespace(chain: string, txHash: string): Option<string>
  {
    var t := Trim(txHash);
    if t == "" then Some("")
    else if Namespace(chain) == "eip155" then CanonicalizeEVMHash(t)
    else if Namespace(chain) == "solana" then CanonicalizeSolanaTxHash(t)
    else Some(t)
  }

  // ---------- Lenient canonicalizers ----------

  function LenientAddress(nibble: (string, nat) -> nat, chain: string, addr: string): string
  {
    match AddressByNamespace(nibble, chain, addr)
    case Some(canon) => canon
    case None => Trim(addr)
  }

  function LenientTxHash(chain: string, txHash: string): string
  {
    match TxHashByNamespace(chain, txHash)
    case Some(canon) => canon
    case None => Trim(txHash)
  }

  function LenientEVMAddress(nibble: (string, nat) -> nat, addr: string): string
  {
    match CanonicalizeEVMAddress(nibble, addr)
    case Some(canon) => canon
    case None => Trim(addr)
  }

  // ---------- What a value means ----------

  /** The bytes a well-formed value denotes, or the trimmed text of a malformed one. */
  datatype Meaning = Raw(bytes: seq<Byte>) | Text(text: string)

  /** A hexadecimal value, with or without 0x, of a length `n` in bytes; any positive length for `None`. */
  function HexMeaning(s: string, n: Option<nat>): Meaning
  {
    var t := Trim(s);
    var body := Strip0x(t).0;
    if IsHexString(body) && (n.Some? ==> |body| == 2 * n.value) then Raw(Unhex(body)) else Text(t)
  }

  /** A Solana transaction id: 0x-hex, or Base58 of exactly 64 bytes. */
  function SolanaTxMeaning(s: string): Meaning
  {
    var t := Trim(s);
    var (body, had0x) := Strip0x(t);
    if had0x && IsHexString(body) then Raw(Unhex(body))
    else if IsBase58(t) && |Decode(t)| == 64 then Raw(Decode(t))
    else Text(t)
  }

  lemma PrefixedHexShape(h: string)
    requires AllHex(h)
    ensures Trim("0x" + h) == "0x" + h
    ensures Strip0x("0x" + h) == (h, true)
    ensures !IsBase58("0x" + h)
  {
    hide Trim, IsBase58, AllHex;
    PrefixedTight(h);
    TrimTight("0x" + h);
    assert ("0x" + h)[2..] == h;
    assert ("0x" + h)[0] == '0';
    ZeroIsNotBase58("0x" + h);
  }

  lemma PrefixedTight(h: string)
    requires AllHex(h)
    ensures Tight("0x" + h)
  {
    var s := "0x" + h;
    if h != [] {
      assert s[|s| - 1] == h[|h| - 1] && IsHexChar(h[|h| - 1]);
    }
  }

  /** Base58 strings never start with 0, so the hex and Base58 branches are disjoint. */
  lemma ZeroIsNotBase58(s: string)
    requires s != [] && s[0] == '0'
    ensures !IsBase58(s)
  {
    hide IsDigit;
    ZeroNotInAlphabet();
    assert s[0] in s;
  }

  lemma ZeroNotInAlphabet()
    ensures !IsDigit('0')
  {
    assert ALPHABET[0] == '1';
    if IsDigit('0') {
      IndexInAlphabet('0');
      assert false;
    }
  }

  /** The canonical key of a hexadecimal value. */
  function HexKey(m: Meaning): string
  {
    match m
    case Raw(bytes) => "0x" + Hex(bytes)
    case Text(t) => t
  }

  function AddressKey(nibble: (string, nat) -> nat, m: Meaning): string
  {
    match m
    case Raw(bytes) => "0x" + Checksum(nibble, Hex(bytes))
    case Text(t) => t
  }

  lemma TrimTwice(s: string)
    ensures Trim(Trim(s)) == Trim(s)
  {
    TrimTight(Trim(s));
  }

  /** A printed hexadecimal key means the bytes it prints. */
  lemma HexKeyMeaning(s: string, n: Option<nat>)
    ensures HexMeaning(HexKey(HexMeaning(s, n)), n) == HexMeaning(s, n)
  {
    hide Trim, Hex, Unhex;
    TrimTwice(s);
    match HexMeaning(s, n) {
      case Raw(bytes) =>
        PrefixedHexShape(Hex(bytes));
        UnhexHex(bytes);
      case Text(t) =>
    }
  }

  lemma AddressKeyMeaning(nibble: (string, nat) -> nat, s: string)
    ensures HexMeaning(AddressKey(nibble, HexMeaning(s, Some(20))), Some(20)) == HexMeaning(s, Some(20))
  {
    hide Trim, Hex, Unhex, Checksum;
    TrimTwice(s);
    match HexMeaning(s, Some(20)) {
      case Raw(bytes) =>
        ChecksumKeepsBytes(nibble, bytes);
        PrefixedHexShape(Checksum(nibble, Hex(bytes)));
      case Text(t) =>
    }
  }

  lemma SolanaKeyMeaning(s: string)
    ensures SolanaTxMeaning(HexKey(SolanaTxMeaning(s))) == SolanaTxMeaning(s)
  {
    hide Trim, Hex, Unhex, IsBase58, Decode;
    TrimTwice(s);
    match SolanaTxMeaning(s) {
      case Raw(bytes) =>
        assert bytes != [];
        PrefixedHexShape(Hex(bytes));
        UnhexHex(bytes);
      case Text(t) =>
    }
  }

  // ---------- The keys are the meanings ----------

  lemma TxHashKeyEVM(chain: string, s: string)
    requires Namespace(chain) == "eip155"
    ensures LenientTxHash(chain, s) == HexKey(HexMeaning(s, Some(32)))
  {
    hide Trim, Namespace, Hex, Unhex, Lower;
    TrimTwice(s);
    var body := Strip0x(Trim(s)).0;
    if IsHexString(body) {
      LowerIsHex(body);
    }
  }

  lemma AddressKeyEVM(nibble: (string, nat) -> nat, chain: string, s: string)
    requires Namespace(chain) == "eip155"
    ensures LenientAddress(nibble, chain, s) == AddressKey(nibble, HexMeaning(s, Some(20)))
    ensures LenientEVMAddress(nibble, s) == AddressKey(nibble, HexMeaning(s, Some(20)))
  {
    hide Trim, Namespace, Hex, Unhex, Checksum;
    TrimTwice(s);
  }

  lemma HexBlobKey(s: string)
    ensures CanonicalizeHexBlob(s) == HexKey(HexMeaning(s, None))
  {
    hide Trim, Hex, Unhex, Lower;
    var body := Strip0x(Trim(s)).0;
    if IsHexString(body) {
      LowerIsHex(body);
    }
  }

  lemma TxHashKeySolana(chain: string, s: string)
    requires Namespace(chain) == "solana"
    ensures LenientTxHash(chain, s) == HexKey(SolanaTxMeaning(s))
  {
    hide Trim, Namespace, Hex, Unhex, Lower, IsDigit, Decode;
    TrimTwice(s);
    var t := Trim(s);
    var (body, had0x) := Strip0x(t);
    if had0x && IsHexString(body) {
      LowerIsHex(body);
    } else if IsBase58(t) {
      NoHexPrefix(t);
    }
  }

  lemma NoHexPrefix(t: string)
    requires IsBase58(t)
    ensures !("0x" <= t)
  {
    hide IsBase58;
    if "0x" <= t {
      assert t[0] == "0x"[0];
      ZeroIsNotBase58(t);
    }
  }

  // ---------- The keys spelled out ----------

  /** The text without a leading 0x or 0X. */
  function Bare(t: string): string
  {
    if |t| >= 2 && t[0] == '0' && (t[1] == 'x' || t[1] == 'X') then t[2..] else t
  }

  /** 0x and the lower-case hex of the bytes a hexadecimal text denotes. */
  function Printed(body: string): string
    requires AllHex(body) && |body| % 2 == 0
  {
    "0x" + Hex(Unhex(body))
  }

  /** The key of an EVM hash: 32 bytes in hex, with or without 0x, become 0x and lower-case hex; other text is trimmed. */
  lemma TxHashFormEVM(chain: string, s: string)
    requires Namespace(chain) == "eip155"
    ensures var body := Bare(Trim(s));
            LenientTxHash(chain, s) == if |body| == 64 && AllHex(body) then Printed(body) else Trim(s)
  {
    hide Trim, Namespace, Hex, Unhex, LenientTxHash;
    TxHashKeyEVM(chain, s);
  }

  /** The key of an EVM address: 20 bytes in hex become 0x and the checksummed hex; other text is trimmed. */
  lemma AddressFormEVM(nibble: (string, nat) -> nat, chain: string, s: string)
    requires Namespace(chain) == "eip155"
    ensures var body := Bare(Trim(s));
            LenientAddress(nibble, chain, s)
            == if |body| == 40 && AllHex(body) then "0x" + Checksum(nibble, Hex(Unhex(body))) else Trim(s)
  {
    hide Trim, Namespace, Hex, Unhex, LenientAddress, LenientEVMAddress, Checksum;
    AddressKeyEVM(nibble, chain, s);
  }

  /** The form of a payload: hex of any positive even length becomes 0x and lower-case hex; other text is trimmed. */
  lemma HexBlobForm(s: string)
    ensures var body := Bare(Trim(s));
            CanonicalizeHexBlob(s) == if body != "" && |body| % 2 == 0 && AllHex(body) then Printed(body) else Trim(s)
  {
    hide Trim, Hex, Unhex, CanonicalizeHexBlob;
    HexBlobKey(s);
  }

  /** The key of a Solana transaction id: 0x-hex and 64 bytes of Base58 become 0x and lower-case hex; other text is trimmed. */
  lemma TxHashFormSolana(chain: string, s: string)
    requires Namespace(chain) == "solana"
    ensures var t := Trim(s);
            var prefixed := |t| >= 2 && t[0] == '0' && (t[1] == 'x' || t[1] == 'X');
            var body := if prefixed then t[2..] else "";
            LenientTxHash(chain, s)
            == if body != "" && |body| % 2 == 0 && AllHex(body) then Printed(body)
               else if IsBase58(t) && |Decode(t)| == 64 then "0x" + Hex(Decode(t))
               else t
  {
    hide Trim, Namespace, Hex, Unhex, LenientTxHash, IsBase58, Decode;
    TxHashKeySolana(chain, s);
  }

  // ---------- Exact kernels and idempotence ----------

  /** Two EVM transaction hashes share a key exactly when they denote the same 32 bytes or are the same malformed text. */
  lemma TxHashKernelEVM(chain: string, a: string, b: string)
    requires Namespace(chain) == "eip155"
    ensures LenientTxHash(chain, a) == LenientTxHash(chain, b) <==> HexMeaning(a, Some(32)) == HexMeaning(b, Some(32))
    ensures LenientTxHash(chain, LenientTxHash(chain, a)) == LenientTxHash(chain, a)
  {
    hide *;
    TxHashKeyEVM(chain, a);
    TxHashKeyEVM(chain, b);
    TxHashKeyEVM(chain, LenientTxHash(chain, a));
    HexKeyMeaning(a, Some(32));
    HexKeyMeaning(b, Some(32));
  }

  /** The same for addresses: same 20 bytes in any case, or the same malformed text. */
  lemma AddressKernelEVM(nibble: (string, nat) -> nat, chain: string, a: string, b: string)
    requires Namespace(chain) == "eip155"
    ensures LenientAddress(nibble, chain, a) == LenientAddress(nibble, chain, b)
            <==> HexMeaning(a, Some(20)) == HexMeaning(b, Some(20))
    ensures LenientAddress(nibble, chain, LenientAddress(nibble, chain, a)) == LenientAddress(nibble, chain, a)
    ensures LenientEVMAddress(nibble, a) == LenientAddress(nibble, chain, a)
  {
    hide *;
    AddressKeyEVM(nibble, chain, a);
    AddressKeyEVM(nibble, chain, b);
    AddressKeyEVM(nibble, chain, LenientAddress(nibble, chain, a));
    AddressKeyMeaning(nibble, a);
    AddressKeyMeaning(nibble, b);
  }

  /** The strict variants reject exactly the malformed values, and otherwise give the lenient key. */
  lemma StrictIffWellFormedEVM(nibble: (string, nat) -> nat, chain: string, s: string)
    requires Namespace(chain) == "eip155"
    ensures TxHashByNamespace(chain, s).Some? <==> Trim(s) == "" || HexMeaning(s, Some(32)).Raw?
    ensures AddressByNamespace(nibble, chain, s).Some? <==> Trim(s) == "" || HexMeaning(s, Some(20)).Raw?
    ensures TxHashByNamespace(chain, s).Some? ==> TxHashByNamespace(chain, s).value == LenientTxHash(chain, s)
    ensures AddressByNamespace(nibble, chain, s).Some? ==>
              AddressByNamespace(nibble, chain, s).value == LenientAddress(nibble, chain, s)
  {
    hide Trim, Namespace, Hex, Unhex, Lower, Checksum;
    TrimTwice(s);
  }

  /** Free-length payloads: same bytes or same malformed text. */
  lemma HexBlobKernel(a: string, b: string)
    ensures CanonicalizeHexBlob(a) == CanonicalizeHexBlob(b) <==> HexMeaning(a, None) == HexMeaning(b, None)
    ensures CanonicalizeHexBlob(CanonicalizeHexBlob(a)) == CanonicalizeHexBlob(a)
  {
    hide *;
    HexBlobKey(a);
    HexBlobKey(b);
    HexBlobKey(CanonicalizeHexBlob(a));
    HexKeyMeaning(a, None);
    HexKeyMeaning(b, None);
  }

  /** Solana transaction ids: hex in any case and Base58 of the same bytes converge; nothing else does. */
  lemma TxHashKernelSolana(chain: string, a: string, b: string)
    requires Namespace(chain) == "solana"
    ensures LenientTxHash(chain, a) == LenientTxHash(chain, b) <==> SolanaTxMeaning(a) == SolanaTxMeaning(b)
    ensures LenientTxHash(chain, LenientTxHash(chain, a)) == LenientTxHash(chain, a)
  {
    hide *;
    TxHashKeySolana(chain, a);
    TxHashKeySolana(chain, b);
    TxHashKeySolana(chain, LenientTxHash(chain, a));
    SolanaKeyMeaning(a);
    SolanaKeyMeaning(b);
  }

  /** Any 0x-hex spelling and the Base58 spelling of a signature get one key, which names the signature. */
  lemma SolanaSignatureConverges(chain: string, signature: seq<Byte>, spelling: string)
    requires Namespace(chain) == "solana" && |signature| == 64
    requires AllHex(spelling) && |spelling| == 128 && Unhex(spelling) == signature
    ensures LenientTxHash(chain, "0x" + spelling) == "0x" + Hex(signature)
    ensures LenientTxHash(chain, Encode(signature)) == "0x" + Hex(signature)
  {
    hide Namespace, Trim, Hex, Unhex, Decode, Encode;
    TxHashKeySolana(chain, "0x" + spelling);
    PrefixedHexShape(spelling);
    TxHashKeySolana(chain, Encode(signature));
    EncodeDecode(signature);
    EncodedIsBase58(signature);
    assert SolanaTxMeaning(Encode(signature)) == Raw(signature);
  }

  /** Two different signatures never share a key, however each is written. */
  lemma SolanaSignaturesNeverCollide(chain: string, x: seq<Byte>, y: seq<Byte>, a: string, b: string)
    requires Namespace(chain) == "solana" && |x| == |y| == 64 && x != y
    requires SolanaTxMeaning(a) == Raw(x) && SolanaTxMeaning(b) == Raw(y)
    ensures LenientTxHash(chain, a) != LenientTxHash(chain, b)
  {
    hide *;
    TxHashKernelSolana(chain, a, b);
  }

  /** A Base58 encoding of at least one byte is a non-empty, tight Base58 string without 0x. */
  lemma EncodedIsBase58(bytes: seq<Byte>)
    requires bytes != []
    ensures IsBase58(Encode(bytes)) && Trim(Encode(bytes)) == Encode(bytes) && !Strip0x(Encode(bytes)).1
  {
    hide Trim, IsDigit, IsSpace, Encode;
    var s := Encode(bytes);
    EncodedDigits(bytes);
    assert s != [] by {
      hide Decode;
      EncodeDecode(bytes);
      EmptyDecodes();
    }
    assert Tight(s);
    TrimTight(s);
    ZeroIsNotBase58Contra(s);
  }

  lemma ZeroIsNotBase58Contra(s: string)
    requires IsBase58(s)
    ensures s[0] != '0'
  {
    hide IsDigit;
    ZeroNotInAlphabet();
    assert s[0] in s;
  }

  lemma EncodedDigits(bytes: seq<Byte>)
    ensures forall i :: 0 <= i < |Encode(bytes)| ==> IsDigit(Encode(bytes)[i]) && !IsSpace(Encode(bytes)[i])
  {
    hide IsDigit, IsSpace, Convert;
    var ds := Convert(bytes, 256, 58);
    forall i | 0 <= i < |Encode(bytes)|
      ensures IsDigit(Encode(bytes)[i]) && !IsSpace(Encode(bytes)[i])
    {
      assert ds[i] in ds;
      DigitChar(ds[i]);
    }
  }

  lemma EmptyDecodes()
    ensures Decode("") == []
  {
    assert Indices("") == [];
  }

  lemma DigitChar(i: nat)
    requires i < 58
    ensures IsDigit(ALPHABET[i]) && !IsSpace(ALPHABET[i])
  {
    AlphabetAt(i);
  }

  // ---------- Solana addresses ----------

  /** What a well-formed Solana address denotes, whichever way it is written. */
  function SolanaAddressBytes(s: string): Option<seq<Byte>>
  {
    var t := Trim(s);
    var (body, had0x) := Strip0x(t);
    if had0x && IsHexString(body) then Some(Unhex(body))
    else if IsBase58(t) then Some(Decode(t))
    else None
  }

  predicate WrittenInHex(s: string)
  {
    Strip0x(Trim(s)).1
  }

  /** Strictness: a value is rejected exactly when it denotes nothing. */
  lemma SolanaValueAccepts(s: string)
    ensures CanonicalizeSolanaValue(s).Some? <==> SolanaAddressBytes(s).Some?
  {
    hide Trim, Unhex, Decode, Lower, IsDigit;
  }

  /** Well-formed addresses share a key exactly when they denote the same bytes in the same notation. */
  lemma SolanaAddressKernel(a: string, b: string)
    requires SolanaAddressBytes(a).Some? && SolanaAddressBytes(b).Some?
    ensures CanonicalizeSolanaValue(a) == CanonicalizeSolanaValue(b)
            <==> SolanaAddressBytes(a) == SolanaAddressBytes(b) && (WrittenInHex(a) <==> WrittenInHex(b))
  {
    SolanaAddressForm(a);
    SolanaAddressForm(b);
    hide Trim, Unhex, Decode, IsBase58, Hex, CanonicalizeSolanaValue, SolanaAddressBytes;
    var x, y := SolanaAddressBytes(a).value, SolanaAddressBytes(b).value;
    UnhexHex(x);
    UnhexHex(y);
    if !WrittenInHex(a) && !WrittenInHex(b) {
      if x == y {
        DecodeInjective(Trim(a), Trim(b));
      }
    } else if WrittenInHex(a) && WrittenInHex(b) {
      assert ("0x" + Hex(x))[2..] == Hex(x);
      assert ("0x" + Hex(y))[2..] == Hex(y);
    } else {
      PrefixedHexShape(Hex(x));
      PrefixedHexShape(Hex(y));
    }
  }

  /** The key of a well-formed address, by notation. */
  lemma SolanaAddressForm(s: string)
    requires SolanaAddressBytes(s).Some?
    ensures WrittenInHex(s) ==>
              CanonicalizeSolanaValue(s) == Some("0x" + Hex(SolanaAddressBytes(s).value)) && SolanaAddressBytes(s).value != []
    ensures !WrittenInHex(s) ==>
              CanonicalizeSolanaValue(s) == Some(Trim(s)) && IsBase58(Trim(s))
              && SolanaAddressBytes(s).value == Decode(Trim(s))
  {
    hide Trim, Unhex, Decode, Hex, Lower, IsDigit;
    var t := Trim(s);
    var (body, had0x) := Strip0x(t);
    if had0x {
      ZeroIsNotBase58(t);
      LowerIsHex(body);
    }
  }

  /** An address as the lenient key sees it: bytes and notation, or malformed text. */
  datatype AddressMeaning = Denotes(bytes: seq<Byte>, inHex: bool) | Malformed(text: string)

  function SolanaAddressMeaning(s: string): AddressMeaning
  {
    match SolanaAddressBytes(s)
    case Some(bytes) => Denotes(bytes, WrittenInHex(s))
    case None => Malformed(Trim(s))
  }

  /** The lenient key keeps the meaning: a malformed address never collides with a well-formed one. */
  lemma SolanaKeyKeepsMeaning(nibble: (string, nat) -> nat, chain: string, s: string)
    requires Namespace(chain) == "solana"
    ensures SolanaAddressMeaning(LenientAddress(nibble, chain, s)) == SolanaAddressMeaning(s)
    ensures SolanaAddressBytes(s).Some? ==> Some(LenientAddress(nibble, chain, s)) == CanonicalizeSolanaValue(s)
    ensures SolanaAddressBytes(s).None? ==> LenientAddress(nibble, chain, s) == Trim(s)
  {
    hide Trim, Namespace, SolanaAddressBytes, WrittenInHex, CanonicalizeSolanaValue, LenientAddress, Hex, IsBase58, Decode;
    LenientSolanaForm(nibble, chain, s);
    SolanaBytesOfTrim(s);
    if SolanaAddressBytes(s).Some? {
      SolanaAddressForm(s);
      if WrittenInHex(s) {
        SolanaHexKeyMeans(SolanaAddressBytes(s).value);
      }
    }
  }

  /** On Solana the strict variants reject exactly the non-empty values that are neither 0x-hex nor Base58, and otherwise agree with the lenient ones. */
  lemma StrictIffWellFormedSolana(nibble: (string, nat) -> nat, chain: string, s: string)
    requires Namespace(chain) == "solana"
    ensures var t := Trim(s);
            var body := if |t| >= 2 && t[0] == '0' && (t[1] == 'x' || t[1] == 'X') then t[2..] else "";
            var ok := t == "" || (body != "" && |body| % 2 == 0 && AllHex(body)) || IsBase58(t);
            && (AddressByNamespace(nibble, chain, s).Some? <==> ok)
            && (TxHashByNamespace(chain, s).Some? <==> ok)
            && (ok ==> AddressByNamespace(nibble, chain, s).value == LenientAddress(nibble, chain, s))
            && (ok ==> TxHashByNamespace(chain, s).value == LenientTxHash(chain, s))
  {
    hide Trim, Namespace, Hex, Unhex, Lower, Decode, IsBase58, AllHex;
    TrimTwice(s);
  }

  /** The key of a Solana address: 0x-hex becomes 0x and lower-case hex; Base58 and other text is trimmed. */
  lemma AddressFormSolana(nibble: (string, nat) -> nat, chain: string, s: string)
    requires Namespace(chain) == "solana"
    ensures var t := Trim(s);
            var prefixed := |t| >= 2 && t[0] == '0' && (t[1] == 'x' || t[1] == 'X');
            var body := if prefixed then t[2..] else "";
            LenientAddress(nibble, chain, s)
            == if body != "" && |body| % 2 == 0 && AllHex(body) then Printed(body) else t
  {
    hide Trim, Namespace, Hex, Unhex, LenientAddress, Decode, CanonicalizeSolanaValue, IsBase58;
    SolanaKeyKeepsMeaning(nibble, chain, s);
    if SolanaAddressBytes(s).Some? {
      SolanaAddressForm(s);
      if WrittenInHex(s) && IsBase58(Trim(s)) {
        ZeroIsNotBase58(Trim(s));
      }
    }
  }

  lemma SolanaHexKeyMeans(bytes: seq<Byte>)
    requires bytes != []
    ensures SolanaAddressBytes("0x" + Hex(bytes)) == Some(bytes) && WrittenInHex("0x" + Hex(bytes))
  {
    hide Trim, Hex, Unhex, Decode, IsBase58;
    PrefixedHexShape(Hex(bytes));
    UnhexHex(bytes);
  }

  lemma LenientSolanaForm(nibble: (string, nat) -> nat, chain: string, s: string)
    requires Namespace(chain) == "solana"
    ensures LenientAddress(nibble, chain, s)
            == match CanonicalizeSolanaValue(s) case Some(canon) => canon case None => Trim(s)
    ensures CanonicalizeSolanaValue(s).Some? <==> SolanaAddressBytes(s).Some?
  {
    hide Trim, Namespace, Unhex, Decode, Lower, IsDigit;
    TrimTwice(s);
  }

  lemma SolanaBytesOfTrim(s: string)
    ensures SolanaAddressBytes(Trim(s)) == SolanaAddressBytes(s) && WrittenInHex(Trim(s)) == WrittenInHex(s)
    ensures Trim(Trim(s)) == Trim(s)
  {
    hide Trim, Unhex, Decode, IsBase58;
    TrimTwice(s);
  }

  /** Solana addresses share a lenient key exactly when they mean the same, and keys are fixed points. */
  lemma AddressKernelSolana(nibble: (string, nat) -> nat, chain: string, a: string, b: string)
    requires Namespace(chain) == "solana"
    ensures LenientAddress(nibble, chain, a) == LenientAddress(nibble, chain, b)
            <==> SolanaAddressMeaning(a) == SolanaAddressMeaning(b)
    ensures LenientAddress(nibble, chain, LenientAddress(nibble, chain, a)) == LenientAddress(nibble, chain, a)
  {
    SolanaMeaningDecides(nibble, chain, a, b);
    SolanaMeaningDecides(nibble, chain, LenientAddress(nibble, chain, a), a);
    hide *;
    SolanaKeyKeepsMeaning(nibble, chain, a);
    SolanaKeyKeepsMeaning(nibble, chain, b);
  }

  lemma SolanaMeaningDecides(nibble: (string, nat) -> nat, chain: string, a: string, b: string)
    requires Namespace(chain) == "solana"
    ensures SolanaAddressMeaning(a) == SolanaAddressMeaning(b) ==>
              LenientAddress(nibble, chain, a) == LenientAddress(nibble, chain, b)
  {
    hide Trim, Namespace, SolanaAddressBytes, WrittenInHex, CanonicalizeSolanaValue, LenientAddress;
    SolanaKeyKeepsMeaning(nibble, chain, a);
    SolanaKeyKeepsMeaning(nibble, chain, b);
    if SolanaAddressBytes(a).Some? && SolanaAddressBytes(b).Some? {
      SolanaAddressKernel(a, b);
    }
  }

  /** Canonicalizing twice is canonicalizing once, on every chain. */
  lemma LenientIdempotent(nibble: (string, nat) -> nat, chain: string, s: string)
    ensures LenientTxHash(chain, LenientTxHash(chain, s)) == LenientTxHash(chain, s)
    ensures LenientAddress(nibble, chain, LenientAddress(nibble, chain, s)) == LenientAddress(nibble, chain, s)
  {
    if Namespace(chain) == "eip155" {
      TxHashKernelEVM(chain, s, s);
      AddressKernelEVM(nibble, chain, s, s);
    } else if Namespace(chain) == "solana" {
      TxHashKernelSolana(chain, s, s);
      AddressKernelSolana(nibble, chain, s, s);
    } else {
      hide *;
      OtherNamespaces(nibble, chain, s);
      OtherNamespaces(nibble, chain, Trim(s));
      TrimTwice(s);
    }
  }

  /** Hex and Base58 spellings of one address do not converge: the zero byte, written both ways. */
  lemma SolanaAddressesCanDiffer()
    ensures SolanaAddressBytes("0x00") == SolanaAddressBytes("1") == Some([0])
    ensures CanonicalizeSolanaValue("0x00") != CanonicalizeSolanaValue("1")
  {
    ZeroByteInHex();
    ZeroByteInBase58();
    hide *;
    SolanaAddressKernel("0x00", "1");
  }

  lemma ZeroByteInHex()
    ensures SolanaAddressBytes("0x00") == Some([0]) && WrittenInHex("0x00")
  {
    hide Trim, Decode, IsBase58;
    assert "0x" + "00" == "0x00";
    PrefixedHexShape("00");
    var zero: Byte := 0;
    assert "00"[2..] == "" && Unhex("") == [];
    assert Unhex("00") == [zero] + Unhex("00"[2..]) == [zero];
  }

  lemma ZeroByteInBase58()
    ensures SolanaAddressBytes("1") == Some([0]) && !WrittenInHex("1")
  {
    hide Trim, IsDigit, Decode;
    TrimTight("1");
    OneDecodesToZero();
    assert IsDigit('1') by { DigitChar(0); assert ALPHABET[0] == '1'; }
  }

  lemma OneDecodesToZero()
    ensures Decode("1") == [0]
  {
    assert Indices("1") == [0];
    assert LeadingZeros([0]) == 1;
    assert Zeros(1) == [0];
    assert Convert([0], 58, 256) == Zeros(1) + [];
  }

  // ---------- Namespaces and empty values ----------

  lemma {:induction false} BeforeColonOf(ns: string, reference: string)
    requires ':' !in ns
    ensures BeforeColon(ns + ":" + reference) == (ns, true)
  {
    if ns == [] {
      assert ns + ":" + reference == ":" + reference;
    } else {
      BeforeColonOf(ns[1..], reference);
      assert (ns + ":" + reference)[1..] == ns[1..] + ":" + reference;
      assert (ns + ":" + reference)[0] == ns[0] && ns[0] in ns;
      assert [ns[0]] + ns[1..] == ns;
    }
  }

  lemma {:induction false} BeforeColonIsPrefix(s: string)
    requires BeforeColon(s).1
    ensures ':' !in BeforeColon(s).0 && BeforeColon(s).0 + ":" <= s
  {
    if s[0] != ':' {
      BeforeColonIsPrefix(s[1..]);
      assert s == [s[0]] + s[1..];
    }
  }

  /** A chain id has a namespace exactly when its trimmed form starts with it and a first colon. */
  lemma NamespaceIff(chain: string, ns: string)
    requires ns != ""
    ensures Namespace(chain) == ns <==> ':' !in ns && ns + ":" <= Trim(chain)
  {
    var t := Trim(chain);
    if Namespace(chain) == ns {
      BeforeColonIsPrefix(t);
    }
    if ':' !in ns && ns + ":" <= t {
      assert t == ns + ":" + t[|ns| + 1..];
      BeforeColonOf(ns, t[|ns| + 1..]);
    }
  }

  /** Optional fields pass through, and other namespaces keep the trimmed text. */
  lemma OtherNamespaces(nibble: (string, nat) -> nat, chain: string, s: string)
    requires Trim(s) == "" || (Namespace(chain) != "eip155" && Namespace(chain) != "solana")
    ensures TxHashByNamespace(chain, s) == AddressByNamespace(nibble, chain, s) == Some(Trim(s))
    ensures LenientTxHash(chain, s) == LenientAddress(nibble, chain, s) == Trim(s)
  {
  }
}
