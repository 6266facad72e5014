/** The native heart-rate helpers (lib/ble-hr.native.ts): the base64 decoder the
    app falls back on when `atob` is missing, the Heart Rate Measurement parser of
    section 3.1 of the Bluetooth Heart Rate Service 1.0, and `averageBpm`.
    Decoded bytes are JavaScript numbers fed to 32-bit bitwise operators, so they
    are `bv32` here; all values involved are non-negative and far below 2^31, so the
    sign of the 32-bit integers never shows. */
module BleHeartRate {
  import opened Wrappers
  import opened RunTypes
  import opened JsText

  // ---------------------------------------------------------------------------
  // The alphabet of section 4 of RFC 4648
  // ---------------------------------------------------------------------------

  /** The decoder's `chars` literal, written as its four runs. */
  const Alphabet: string := "ABCDEFGHIJKLMNOPQRSTUVWXYZ" + "abcdefghijklmnopqrstuvwxyz" + "0123456789" + "+/"

  /** Table 1 of RFC 4648: the character that encodes sextet v. */
  function SextetChar(v: int): char
    requires 0 <= v < 64
  {
    if v < 26 then ('A' as int + v) as char
    else if v < 52 then ('a' as int + (v - 26)) as char
    else if v < 62 then ('0' as int + (v - 52)) as char
    else if v == 62 then '+' else '/'
  }

  /** The character codes of the alphabet. */
  predicate IsAlphabetCode(code: int) {
    65 <= code <= 90 || 97 <= code <= 122 || 48 <= code <= 57 || code == 43 || code == 47
  }

  /** The sextet an alphabet character code stands for. */
  function SextetOfCode(code: int): (v: int)
    requires IsAlphabetCode(code)
    ensures 0 <= v < 64 && SextetChar(v) as int == code
  {
    if 65 <= code <= 90 then code - 65
    else if 97 <= code <= 122 then code - 71
    else if 48 <= code <= 57 then code + 4
    else if code == 43 then 62 else 63
  }

  /** Table 1 character codes are alphabet codes, and they map back to their sextet. */
  lemma SextetCharCode(v: int)
    requires 0 <= v < 64
    ensures IsAlphabetCode(SextetChar(v) as int) && SextetOfCode(SextetChar(v) as int) == v
  {
  }

  /** The literal is Table 1, in order. */
  lemma AlphabetChars()
    ensures |Alphabet| == 64
    ensures forall v :: 0 <= v < 64 ==> Alphabet[v] == SextetChar(v)
  {
  }

  /** Each character of the literal has an alphabet code that maps back to its index. */
  lemma AlphabetTable()
    ensures |Alphabet| == 64
    ensures forall v :: 0 <= v < 64 ==>
      IsAlphabetCode(Alphabet[v] as int) && SextetOfCode(Alphabet[v] as int) == v
  {
    AlphabetChars();
    forall v | 0 <= v < 64
      ensures IsAlphabetCode(Alphabet[v] as int) && SextetOfCode(Alphabet[v] as int) == v
    {
      SextetCharCode(v);
    }
  }

  /** Entry `code` of the finished lookup table: the sextet for an alphabet
      character, 0 (the `Uint8Array` default) for any other code below 256. */
  function TableEntry(code: int): (e: bv8)
    ensures e < 64
    ensures IsAlphabetCode(code) ==> e as int == SextetOfCode(code)
    ensures !IsAlphabetCode(code) ==> e == 0
  {
    if IsAlphabetCode(code) then
      Narrow(SextetOfCode(code));
      SextetOfCode(code) as bv8
    else 0
  }

  /** `lookup[base64.charCodeAt(i)]` as the bitwise operators see it: codes of 256
      and up index past the table, and the `undefined` read acts as 0. */
  function Sextet(c: char): (v: bv32)
    ensures v < 64
  {
    if c as int < 256 then TableEntry(c as int) as bv32 else 0
  }

  /** Moving a sextet between `int`, `bv8` and `bv32` keeps its value. */
  lemma Narrow(x: int)
    requires 0 <= x < 64
    ensures (x as bv8) as bv32 == x as bv32 && (x as bv8) < 64
  {
  }

  lemma Widen(v: bv32)
    requires v < 64
    ensures 0 <= v as int < 64 && ((v as int) as bv8) as bv32 == v
  {
  }

  /** The loop filling `lookup`: entry `chars.charCodeAt(i)` gets i. */
  method BuildLookup() returns (lookup: array<bv8>)
    ensures fresh(lookup) && IsLookupTable(lookup)
  {
    AlphabetTable();
    lookup := new bv8[256](_ => 0);
    for i := 0 to |Alphabet|
      invariant forall code :: 0 <= code < 256 ==> lookup[code] == PartialEntry(code, i)
    {
      PartialEntryStep(i);
      lookup[Alphabet[i] as int] := i as bv8;
    }
  }

  /** Entry `code` once the first n characters of the literal are stored. */
  function PartialEntry(code: int, n: nat): bv8 {
    if IsAlphabetCode(code) && SextetOfCode(code) < n then TableEntry(code) else 0
  }

  /** Storing character n sets its own entry to n and leaves the others. */
  lemma PartialEntryStep(n: nat)
    requires n < 64
    ensures |Alphabet| == 64 && Alphabet[n] as int < 256
    ensures forall code ::
      PartialEntry(code, n + 1) == (if code == Alphabet[n] as int then n as bv8 else PartialEntry(code, n))
  {
    AlphabetChars();
    SextetCharCode(n);
    forall code
      ensures PartialEntry(code, n + 1) == if code == Alphabet[n] as int then n as bv8 else PartialEntry(code, n)
    {
      EntryStep(code, n);
    }
  }

  lemma EntryStep(code: int, n: nat)
    requires n < 64
    ensures PartialEntry(code, n + 1) == if code == SextetChar(n) as int then n as bv8 else PartialEntry(code, n)
  {
    SextetCharCode(n);
    Narrow(n);
    if code == SextetChar(n) as int {
      assert TableEntry(code) == n as bv8;
    } else if IsAlphabetCode(code) {
      assert SextetChar(SextetOfCode(code)) as int == code;
    }
  }

  // ---------------------------------------------------------------------------
  // Decoding
  // ---------------------------------------------------------------------------

  /** The sextet each character stands for, in order. */
  function SextetsOf(s: string): (v: seq<bv32>)
    ensures |v| == |s| && forall k :: 0 <= k < |s| ==> v[k] == Sextet(s[k])
  {
    if s == [] then [] else SextetsOf(s[..|s| - 1]) + [Sextet(s[|s| - 1])]
  }

  /** The three bytes one group of four sextets yields. */
  function GroupBytes(a: bv32, b: bv32, c: bv32, d: bv32): seq<bv32> {
    [(a << 2) | (b >> 4), ((b & 15) << 4) | (c >> 2), ((c & 3) << 6) | d]
  }

  /** Every group's bytes, in order, for a whole number of groups of sextets. */
  function BytesOf(v: seq<bv32>): seq<bv32>
    requires |v| % 4 == 0
  {
    if v == [] then []
    else
      var n := |v|;
      BytesOf(v[..n - 4]) + GroupBytes(v[n - 4], v[n - 3], v[n - 2], v[n - 1])
  }

  /** The bytes of a string of whole groups. */
  function DecodeGroups(s: string): seq<bv32>
    requires |s| % 4 == 0
  {
    BytesOf(SextetsOf(s))
  }

  /** `placeHolders`: the number of trailing `=` characters, at most two. */
  function PlaceHolders(s: string): nat {
    if |s| >= 2 && s[|s| - 2] == '=' && s[|s| - 1] == '=' then 2
    else if |s| >= 1 && s[|s| - 1] == '=' then 1
    else 0
  }

  /** `new Array((len * 3) / 4 - placeHolders)` does not throw: the length is a
      non-negative whole number. */
  predicate ArrayLengthValid(len: nat, placeHolders: nat) {
    var n := (len as real * 3.0) / 4.0 - placeHolders as real;
    n >= 0.0 && n == n.Floor as real
  }

  /** The allocation throws exactly when the input is not whole groups. */
  lemma ArrayLengthValidIff(s: string)
    ensures ArrayLengthValid(|s|, PlaceHolders(s)) <==> |s| % 4 == 0
  {
    var len, ph := |s|, PlaceHolders(s);
    var q, r := len / 4, len % 4;
    var n := (len as real * 3.0) / 4.0 - ph as real;
    assert len as real == 4.0 * q as real + r as real;
    assert n == (3 * q - ph) as real + 0.75 * r as real;
    if r == 0 {
      assert q == 0 ==> ph == 0;
    } else if r == 1 {
      assert n.Floor == 3 * q - ph;
    } else if r == 2 {
      assert n.Floor == 3 * q - ph + 1;
    } else {
      assert n.Floor == 3 * q - ph + 2;
    }
  }

  /** The fallback branch of `decodeBase64` as written: a thrown `RangeError` for a
      length that is not whole groups, otherwise three bytes per group, padding
      positions included. */
  function Base64DecodeAsWritten(s: string): Result<seq<bv32>> {
    if !ArrayLengthValid(|s|, PlaceHolders(s)) then Failure("Invalid array length")
    else
      ArrayLengthValidIff(s);
      Success(DecodeGroups(s))
  }

  /** The fallback branch of `decodeBase64`: the table loop, the allocation that
      throws for a length that is not whole groups, then the pass over the groups. */
  method DecodeBase64(base64: string) returns (r: Result<seq<bv32>>)
    ensures r == Base64DecodeAsWritten(base64)
  {
    var lookup := BuildLookup();
    var len := |base64|;
    var placeHolders := PlaceHolders(base64);
    if !ArrayLengthValid(len, placeHolders) {
      return Failure("Invalid array length");
    }
    ArrayLengthValidIff(base64);
    var bytes := DecodeGroupsLoop(base64, lookup);
    AsWrittenWholeGroups(base64);
    return Success(bytes);
  }

  /** The loop over the groups: three bytes appended per group, counted in `L`,
      and `arr.slice(0, L)` returned. */
  method DecodeGroupsLoop(base64: string, lookup: array<bv8>) returns (bytes: seq<bv32>)
    requires |base64| % 4 == 0 && IsLookupTable(lookup)
    ensures bytes == DecodeGroups(base64)
  {
    var len := |base64|;
    var arr: seq<bv32> := [];
    var L := 0;
    var i := 0;
    while i < len
      invariant 0 <= i <= len && i % 4 == 0
      invariant L == |arr|
      invariant arr == DecodeGroups(base64[..i])
    {
      NextGroup(i, len);
      var a := ReadTable(lookup, base64[i]);
      var b := ReadTable(lookup, base64[i + 1]);
      var c := ReadTable(lookup, base64[i + 2]);
      var d := ReadTable(lookup, base64[i + 3]);
      var group := GroupBytes(a, b, c, d);
      DecodeGroupsStep(base64, i, group);
      arr := arr + group;
      L := L + 3;
      i := i + 4;
    }
    assert i == len && base64[..len] == base64;
    assert arr == DecodeGroups(base64);
    assert arr[..L] == arr;
    bytes := arr[..L];
  }

  /** Another whole group starts at `i` when `i` is short of the end. */
  lemma NextGroup(i: int, len: int)
    requires 0 <= i < len && i % 4 == 0 && len % 4 == 0
    ensures i + 4 <= len && (i + 4) % 4 == 0
  {
  }

  /** The finished `lookup` table. */
  predicate IsLookupTable(lookup: array<bv8>)
    reads lookup
  {
    lookup.Length == 256 && forall code :: 0 <= code < 256 ==> lookup[code] == TableEntry(code)
  }

  lemma AsWrittenWholeGroups(s: string)
    requires |s| % 4 == 0
    ensures Base64DecodeAsWritten(s) == Success(DecodeGroups(s))
  {
    ArrayLengthValidIff(s);
  }

  /** One table read, widened for the bitwise operators. */
  function ReadTable(lookup: array<bv8>, c: char): (v: bv32)
    reads lookup
    requires IsLookupTable(lookup)
    ensures v == Sextet(c)
  {
    if c as int < 256 then lookup[c as int] as bv32 else 0
  }

  /** Decoding one more group of a prefix appends that group's bytes. */
  lemma DecodeGroupsStep(s: string, i: nat, g: seq<bv32>)
    requires i % 4 == 0 && i + 4 <= |s|
    requires g == GroupBytes(Sextet(s[i]), Sextet(s[i + 1]), Sextet(s[i + 2]), Sextet(s[i + 3]))
    ensures |g| == 3 && DecodeGroups(s[..i + 4]) == DecodeGroups(s[..i]) + g
  {
    var v := SextetsOf(s[..i + 4]);
    assert v[..i] == SextetsOf(s[..i]);
  }

  /** Three bytes per group, and every byte below 256. */
  lemma {:induction false} BytesOfShape(v: seq<bv32>)
    requires |v| % 4 == 0 && forall k :: 0 <= k < |v| ==> v[k] < 64
    ensures |BytesOf(v)| == 3 * (|v| / 4)
    ensures AreBytes(BytesOf(v))
  {
    if v != [] {
      var n := |v|;
      var init := v[..n - 4];
      DropGroup(n);
      BytesOfShape(init);
      GroupBytesBelow(v[n - 4], v[n - 3], v[n - 2], v[n - 1]);
      AppendBytes(BytesOf(init), GroupBytes(v[n - 4], v[n - 3], v[n - 2], v[n - 1]));
    }
  }

  lemma GroupBytesBelow(a: bv32, b: bv32, c: bv32, d: bv32)
    requires a < 64 && b < 64 && c < 64 && d < 64
    ensures |GroupBytes(a, b, c, d)| == 3 && AreBytes(GroupBytes(a, b, c, d))
  {
    GroupBits(a, b, c, d);
  }

  lemma AppendBytes(x: seq<bv32>, y: seq<bv32>)
    requires AreBytes(x) && AreBytes(y)
    ensures AreBytes(x + y)
  {
    assert forall k :: 0 <= k < |y| ==> (x + y)[|x| + k] == y[k];
  }

  lemma AppendSextets(x: seq<bv32>, y: seq<bv32>)
    requires AreSextets(x) && AreSextets(y)
    ensures AreSextets(x + y)
  {
    assert forall k :: 0 <= k < |y| ==> (x + y)[|x| + k] == y[k];
  }

  /** Removing the last group from a whole number of groups leaves one group fewer. */
  lemma DropGroup(n: nat)
    ensures n >= 4 && n % 4 == 0 ==> (n - 4) % 4 == 0 && (n - 4) / 4 + 1 == n / 4
    ensures n >= 3 && n % 3 == 0 ==> (n - 3) % 3 == 0 && (n - 3) / 3 + 1 == n / 3
  {
  }

  /** A group of four sextets packs the same 24 bits as its three bytes, as
      section 4 of RFC 4648 lays them out; every byte is below 256. */
  lemma GroupBits(a: bv32, b: bv32, c: bv32, d: bv32)
    requires a < 64 && b < 64 && c < 64 && d < 64
    ensures var g := GroupBytes(a, b, c, d);
      && g[0] < 256 && g[1] < 256 && g[2] < 256
      && (g[0] << 16) | (g[1] << 8) | g[2] == (a << 18) | (b << 12) | (c << 6) | d
  {
  }

  /** The decoder as written turns 4k characters into exactly 3k bytes, each below 256. */
  lemma DecodeGroupsShape(s: string)
    requires |s| % 4 == 0
    ensures |DecodeGroups(s)| == 3 * (|s| / 4) && AreBytes(DecodeGroups(s))
  {
    BytesOfShape(SextetsOf(s));
  }

  /** One more group of sextets appends its three bytes. */
  lemma BytesOfSnoc(v: seq<bv32>, q: seq<bv32>)
    requires |v| % 4 == 0 && |q| == 4
    ensures BytesOf(v + q) == BytesOf(v) + GroupBytes(q[0], q[1], q[2], q[3])
  {
    assert (v + q)[..|v + q| - 4] == v;
  }

  /** Decoding whole groups distributes over concatenation. */
  lemma {:induction false} BytesOfAppend(v: seq<bv32>, w: seq<bv32>)
    requires |v| % 4 == 0 && |w| % 4 == 0
    ensures BytesOf(v + w) == BytesOf(v) + BytesOf(w)
  {
    if w == [] {
      assert v + w == v;
    } else {
      var n := |w|;
      var w' := w[..n - 4];
      assert (v + w)[..|v + w| - 4] == v + w';
      BytesOfAppend(v, w');
    }
  }

  // ---------------------------------------------------------------------------
  // Encoding (section 4 of RFC 4648), the reference the decoder is checked against
  // ---------------------------------------------------------------------------

  predicate AreBytes(bytes: seq<bv32>) {
    forall k :: 0 <= k < |bytes| ==> bytes[k] < 256
  }

  predicate AreSextets(v: seq<bv32>) {
    forall k :: 0 <= k < |v| ==> v[k] < 64
  }

  /** The four sextets of a 24-bit group. */
  function Sextets(x0: bv32, x1: bv32, x2: bv32): seq<bv32> {
    [x0 >> 2, ((x0 & 3) << 4) | (x1 >> 4), ((x1 & 15) << 2) | (x2 >> 6), x2 & 63]
  }

  /** Splitting three bytes into sextets and grouping them again gives the bytes back. */
  lemma SextetsRoundTrip(x0: bv32, x1: bv32, x2: bv32)
    requires x0 < 256 && x1 < 256 && x2 < 256
    ensures var v := Sextets(x0, x1, x2);
      && v[0] < 64 && v[1] < 64 && v[2] < 64 && v[3] < 64
      && GroupBytes(v[0], v[1], v[2], v[3]) == [x0, x1, x2]
  {
    var a, b, c, d := x0 >> 2, ((x0 & 3) << 4) | (x1 >> 4), ((x1 & 15) << 2) | (x2 >> 6), x2 & 63;
    FirstByteBits(x0, x1);
    SecondByteBits(x0, x1, x2);
    ThirdByteBits(x1, x2);
    assert Sextets(x0, x1, x2) == [a, b, c, d];
    assert GroupBytes(a, b, c, d) == [x0, x1, x2];
  }

  lemma FirstByteBits(x0: bv32, x1: bv32)
    requires x0 < 256 && x1 < 256
    ensures x0 >> 2 < 64 && ((x0 & 3) << 4) | (x1 >> 4) < 64
    ensures ((x0 >> 2) << 2) | ((((x0 & 3) << 4) | (x1 >> 4)) >> 4) == x0
  {
  }

  lemma SecondByteBits(x0: bv32, x1: bv32, x2: bv32)
    requires x0 < 256 && x1 < 256 && x2 < 256
    ensures ((x1 & 15) << 2) | (x2 >> 6) < 64
    ensures (((((x0 & 3) << 4) | (x1 >> 4)) & 15) << 4) | ((((x1 & 15) << 2) | (x2 >> 6)) >> 2) == x1
  {
  }

  lemma ThirdByteBits(x1: bv32, x2: bv32)
    requires x1 < 256 && x2 < 256
    ensures x2 & 63 < 64
    ensures (((((x1 & 15) << 2) | (x2 >> 6)) & 3) << 6) | (x2 & 63) == x2
  {
  }

  /** Padding stands for zero bits: the sextets a short group leaves out are zero. */
  lemma TailBits2(x0: bv32, x1: bv32)
    requires x0 < 256 && x1 < 256
    ensures var v := Sextets(x0, x1, 0);
      && v[0] < 64 && v[1] < 64 && v[2] < 64
      && GroupBytes(v[0], v[1], v[2], 0) == [x0, x1, 0]
  {
  }

  lemma TailBits1(x0: bv32)
    requires x0 < 256
    ensures var v := Sextets(x0, 0, 0);
      && v[0] < 64 && v[1] < 64
      && GroupBytes(v[0], v[1], 0, 0) == [x0, 0, 0]
  {
  }

  /** The sextets of whole 24-bit groups. */
  function SextetsFull(bytes: seq<bv32>): (v: seq<bv32>)
    requires AreBytes(bytes) && |bytes| % 3 == 0
    ensures |v| == 4 * (|bytes| / 3) && |v| % 4 == 0 && AreSextets(v)
  {
    if bytes == [] then []
    else
      var n := |bytes|;
      DropGroup(n);
      SextetsBelow(bytes[n - 3], bytes[n - 2], bytes[n - 1]);
      var init := SextetsFull(bytes[..n - 3]);
      AppendSextets(init, Sextets(bytes[n - 3], bytes[n - 2], bytes[n - 1]));
      init + Sextets(bytes[n - 3], bytes[n - 2], bytes[n - 1])
  }

  lemma SextetsBelow(x0: bv32, x1: bv32, x2: bv32)
    requires x0 < 256 && x1 < 256 && x2 < 256
    ensures |Sextets(x0, x1, x2)| == 4 && AreSextets(Sextets(x0, x1, x2))
  {
    SextetsRoundTrip(x0, x1, x2);
  }

  /** The sextets of the final one or two bytes: two or three of them. */
  function SextetsTail(tail: seq<bv32>): (v: seq<bv32>)
    requires AreBytes(tail) && |tail| < 3
    ensures |v| == (if tail == [] then 0 else |tail| + 1) && AreSextets(v)
  {
    if |tail| == 2 then TailBits2(tail[0], tail[1]); Sextets(tail[0], tail[1], 0)[..3]
    else if |tail| == 1 then TailBits1(tail[0]); Sextets(tail[0], 0, 0)[..2]
    else []
  }

  /** Table 1 applied to each sextet. */
  function CharsOf(v: seq<bv32>): (s: string)
    requires AreSextets(v)
    ensures |s| == |v| && forall k :: 0 <= k < |s| ==> s[k] != '='
  {
    seq(|v|, k requires 0 <= k < |v| => SextetCharOf(v[k]))
  }

  function SextetCharOf(v: bv32): (c: char)
    requires v < 64
    ensures c != '='
  {
    Widen(v);
    SextetChar(v as int)
  }

  /** Reading the characters back gives the sextets. */
  lemma SextetsOfChars(v: seq<bv32>)
    requires AreSextets(v)
    ensures SextetsOf(CharsOf(v)) == v
  {
    var w := SextetsOf(CharsOf(v));
    forall k | 0 <= k < |v|
      ensures w[k] == v[k]
    {
      SextetOfChar(v[k]);
    }
  }

  lemma SextetOfChar(x: bv32)
    requires x < 64
    ensures Sextet(SextetCharOf(x)) == x
  {
    Widen(x);
    SextetCharCode(x as int);
  }

  /** The number of padding characters `Encode` appends. */
  function PadCount(n: nat): nat {
    if n % 3 == 0 then 0 else 3 - n % 3
  }

  function Zeros(n: nat): seq<bv32> {
    seq(n, _ => 0)
  }

  /** Base64 with padding, section 4 of RFC 4648: the characters of the full
      groups and of the tail, then one `=` per missing byte. */
  function Encode(bytes: seq<bv32>): (e: string)
    requires AreBytes(bytes)
    ensures |e| % 4 == 0
  {
    CharsOf(SextetsOfBytes(bytes)) + seq(PadCount(|bytes|), _ => '=')
  }

  /** The sextets of a byte string: those of its whole groups, then those of its tail. */
  function SextetsOfBytes(bytes: seq<bv32>): (v: seq<bv32>)
    requires AreBytes(bytes)
    ensures AreSextets(v) && (|v| + PadCount(|bytes|)) % 4 == 0
  {
    var full := 3 * (|bytes| / 3);
    SliceBytes(bytes, full);
    var f, t := SextetsFull(bytes[..full]), SextetsTail(bytes[full..]);
    AppendSextets(f, t);
    f + t
  }

  lemma SliceBytes(bytes: seq<bv32>, k: nat)
    requires AreBytes(bytes) && k <= |bytes|
    ensures AreBytes(bytes[..k]) && AreBytes(bytes[k..])
  {
    assert forall i :: 0 <= i < |bytes| - k ==> bytes[k..][i] == bytes[k + i];
  }

  /** The encoded text ends in exactly as many `=` as padding was added. */
  lemma EncodePlaceHolders(bytes: seq<bv32>)
    requires AreBytes(bytes)
    ensures PlaceHolders(Encode(bytes)) == PadCount(|bytes|)
  {
    var c := CharsOf(SextetsOfBytes(bytes));
    var e := Encode(bytes);
    var pad := PadCount(|bytes|);
    assert e == c + seq(pad, _ => '=');
    if pad == 0 {
      assert e == c;
    } else if pad == 1 {
      assert e[|e| - 1] == '=' && e[|e| - 2] == c[|c| - 1];
    } else {
      assert e[|e| - 1] == '=' && e[|e| - 2] == '=';
    }
  }

  /** The sextets the decoder reads from an encoding: those of the bytes, then a
      zero for each `=`. */
  lemma SextetsOfEncode(bytes: seq<bv32>)
    requires AreBytes(bytes)
    ensures SextetsOf(Encode(bytes)) == SextetsOfBytes(bytes) + Zeros(PadCount(|bytes|))
  {
    var v := SextetsOfBytes(bytes);
    var pad := PadCount(|bytes|);
    var c, p := CharsOf(v), seq(pad, _ => '=');
    SextetsOfChars(v);
    SextetsOfAppend(c, p);
    SextetsOfPadding(pad);
  }

  lemma SextetsOfAppend(x: string, y: string)
    ensures SextetsOf(x + y) == SextetsOf(x) + SextetsOf(y)
  {
    var l, r := SextetsOf(x + y), SextetsOf(x) + SextetsOf(y);
    assert forall k :: 0 <= k < |l| ==> l[k] == r[k];
  }

  /** `=` is not in the table, so padding reads as zero sextets. */
  lemma SextetsOfPadding(n: nat)
    ensures SextetsOf(seq(n, _ => '=')) == Zeros(n)
  {
    var l := SextetsOf(seq(n, _ => '='));
    assert forall k :: 0 <= k < n ==> l[k] == Zeros(n)[k];
  }

  /** Grouping the sextets of full groups gives the bytes back. */
  lemma {:induction false} BytesOfSextetsFull(bytes: seq<bv32>)
    requires AreBytes(bytes) && |bytes| % 3 == 0
    ensures BytesOf(SextetsFull(bytes)) == bytes
  {
    if bytes != [] {
      var n := |bytes|;
      var init := bytes[..n - 3];
      var x0, x1, x2 := bytes[n - 3], bytes[n - 2], bytes[n - 1];
      var q := Sextets(x0, x1, x2);
      DropGroup(n);
      SliceBytes(bytes, n - 3);
      BytesOfSextetsFull(init);
      SextetsBelow(x0, x1, x2);
      SextetsRoundTrip(x0, x1, x2);
      BytesOfSnoc(SextetsFull(init), q);
      LastThree(bytes);
      calc {
        BytesOf(SextetsFull(bytes));
        BytesOf(SextetsFull(init) + q);
        BytesOf(SextetsFull(init)) + GroupBytes(q[0], q[1], q[2], q[3]);
        init + [x0, x1, x2];
        bytes;
      }
    }
  }

  /** The last-group split, stated apart so that `BytesOfSextetsFull` stays cheap to prove. */
  lemma LastThree<T>(s: seq<T>)
    requires |s| >= 3
    ensures s == s[..|s| - 3] + [s[|s| - 3], s[|s| - 2], s[|s| - 1]]
  {
  }

  /** Grouping the sextets of the tail and its padding zeros gives the tail and
      one zero byte per `=`. */
  lemma BytesOfSextetsTail(tail: seq<bv32>)
    requires AreBytes(tail) && |tail| < 3
    ensures BytesOf(SextetsTail(tail) + Zeros(PadCount(|tail|))) == tail + Zeros(PadCount(|tail|))
  {
    var v := SextetsTail(tail) + Zeros(PadCount(|tail|));
    if |tail| == 2 {
      TailBits2(tail[0], tail[1]);
      assert v[..0] == [];
      assert tail + Zeros(1) == [tail[0], tail[1], 0];
    } else if |tail| == 1 {
      TailBits1(tail[0]);
      assert v[..0] == [];
      assert tail + Zeros(2) == [tail[0], 0, 0];
    } else {
      assert v == [] && tail + Zeros(0) == [];
    }
  }

  /** Whole-group decoding of an encoding: the bytes, then one zero per `=`. */
  lemma DecodeGroupsOfEncode(bytes: seq<bv32>)
    requires AreBytes(bytes)
    ensures DecodeGroups(Encode(bytes)) == bytes + Zeros(PadCount(|bytes|))
  {
    var full := 3 * (|bytes| / 3);
    var head, tail := bytes[..full], bytes[full..];
    SliceBytes(bytes, full);
    var f, t, z := SextetsFull(head), SextetsTail(tail), Zeros(PadCount(|bytes|));
    GroupCounts(|bytes|);
    assert |f| % 4 == 0 && |t + z| % 4 == 0;
    SextetsOfEncode(bytes);
    assert SextetsOfBytes(bytes) == f + t;
    Assoc(f, t, z);
    BytesOfAppend(f, t + z);
    BytesOfSextetsFull(head);
    BytesOfSextetsTail(tail);
    SplitAt(bytes, full);
    Assoc(head, tail, z);
    calc {
      DecodeGroups(Encode(bytes));
      BytesOf(f + (t + z));
      BytesOf(f) + BytesOf(t + z);
      head + (tail + z);
      bytes + z;
    }
  }

  lemma GroupCounts(n: nat)
    ensures (3 * (n / 3)) / 3 == n / 3 && (4 * (n / 3)) % 4 == 0
    ensures n - 3 * (n / 3) == n % 3 && PadCount(n % 3) == PadCount(n)
  {
  }

  /** `Assoc` and `SplitAt` are stated apart so that `DecodeGroupsOfEncode` stays cheap to prove. */
  lemma Assoc<T>(a: seq<T>, b: seq<T>, c: seq<T>)
    ensures a + b + c == a + (b + c)
  {
  }

  lemma SplitAt<T>(s: seq<T>, k: nat)
    requires k <= |s|
    ensures s == s[..k] + s[k..]
  {
  }

  /** The decoder as written returns the encoded bytes followed by one zero per
      padding character. */
  lemma DecodeEncodedAsWritten(bytes: seq<bv32>)
    requires AreBytes(bytes)
    ensures Base64DecodeAsWritten(Encode(bytes)) == Success(bytes + Zeros(PadCount(|bytes|)))
  {
    AsWrittenWholeGroups(Encode(bytes));
    DecodeGroupsOfEncode(bytes);
  }

  /** The decoder the allocated length describes: the fallback branch with the
      `placeHolders` padding bytes dropped, which is what `atob` returns for
      well-formed input. */
  function Base64Decode(s: string): Result<seq<bv32>> {
    if !ArrayLengthValid(|s|, PlaceHolders(s)) then Failure("Invalid array length")
    else
      ArrayLengthValidIff(s);
      var bytes := DecodeGroups(s);
      DecodeGroupsShape(s);
      Success(bytes[..|bytes| - PlaceHolders(s)])
  }

  /** On whole groups the corrected decoder keeps all but the last `placeHolders` bytes. */
  lemma CorrectedWholeGroups(s: string)
    requires |s| % 4 == 0
    ensures |DecodeGroups(s)| == 3 * (|s| / 4) && PlaceHolders(s) <= 3 * (|s| / 4)
    ensures Base64Decode(s) == Success(DecodeGroups(s)[..3 * (|s| / 4) - PlaceHolders(s)])
  {
    ArrayLengthValidIff(s);
    DecodeGroupsShape(s);
  }

  /** Decoding what was encoded gives back exactly the bytes. */
  lemma DecodeEncoded(bytes: seq<bv32>)
    requires AreBytes(bytes)
    ensures Base64Decode(Encode(bytes)) == Success(bytes)
  {
    DecodeEncodedAsWritten(bytes);
    EncodePlaceHolders(bytes);
    assert (bytes + Zeros(PadCount(|bytes|)))[..|bytes|] == bytes;
  }

  // ---------------------------------------------------------------------------
  // Heart Rate Measurement
  // ---------------------------------------------------------------------------

  /** The final range test `bpm >= 0 && bpm <= 255` on non-negative values. */
  function InByteRange(bpm: bv32): Option<int> {
    if bpm <= 255 then Some(bpm as int) else None
  }

  /** The body of `parseHeartRateMeasurement` after decoding: flags bit 0 selects
      a uint8 value in byte 1 or a little-endian uint16 value in bytes 1 and 2. */
  function HeartRateFromBytes(buf: seq<bv32>): (r: Option<int>)
    ensures r.Some? ==> |buf| >= 2 && 0 <= r.value <= 255
  {
    if |buf| < 2 then None
    else if buf[0] & 1 == 0 then InByteRange(buf[1])
    else if |buf| < 3 then None
    else InByteRange(buf[1] | (buf[2] << 8))
  }

  /** `parseHeartRateMeasurement` over the fallback decoder as written; the thrown
      error is caught and gives none. */
  function ParseHeartRateMeasurementAsWritten(base64Value: string): (r: Option<int>)
    ensures |base64Value| % 4 != 0 ==> r.None?
    ensures r.Some? ==> 0 <= r.value <= 255
  {
    ArrayLengthValidIff(base64Value);
    match Base64DecodeAsWritten(base64Value)
    case Failure(_) => None
    case Success(buf) => HeartRateFromBytes(buf)
  }

  /** `parseHeartRateMeasurement` over the decoder that drops padding bytes. */
  function ParseHeartRateMeasurement(base64Value: string): Option<int> {
    match Base64Decode(base64Value)
    case Failure(_) => None
    case Success(buf) => HeartRateFromBytes(buf)
  }

  /** The cases of the measurement format on a buffer of bytes: too short gives
      none; a uint8 value is always accepted and other flag bits are ignored; a
      uint16 value needs three bytes and is accepted exactly when its high byte
      is zero. Any accepted value lies in 0..255. */
  lemma HeartRateFromBytesCases(buf: seq<bv32>)
    requires AreBytes(buf)
    ensures var r := HeartRateFromBytes(buf);
      && (|buf| < 2 ==> r == None)
      && (|buf| >= 2 && buf[0] & 1 == 0 ==> r == Some(buf[1] as int))
      && (|buf| == 2 && buf[0] & 1 == 1 ==> r == None)
      && (|buf| >= 3 && buf[0] & 1 == 1 ==> (r.Some? <==> buf[2] == 0) && (r.Some? ==> r.value == buf[1] as int))
      && (r.Some? ==> 0 <= r.value <= 255)
  {
    if |buf| >= 3 && buf[0] & 1 == 1 {
      Uint16Bits(buf[1], buf[2]);
    }
  }

  lemma Uint16Bits(lo: bv32, hi: bv32)
    requires lo < 256 && hi < 256
    ensures (lo | (hi << 8)) <= 255 <==> hi == 0
    ensures hi == 0 ==> lo | (hi << 8) == lo
  {
  }

  /** Input that is not whole base64 groups is rejected by the parser over the
      fallback decoder, as written and corrected (not by `atob`, which also takes
      unpadded input). */
  lemma ParseRejectsPartialGroups(base64Value: string)
    requires |base64Value| % 4 != 0
    ensures ParseHeartRateMeasurementAsWritten(base64Value) == None
    ensures ParseHeartRateMeasurement(base64Value) == None
  {
    ArrayLengthValidIff(base64Value);
  }

  /** A measurement sent as base64 parses back to its value: a uint8 value as is,
      a uint16 value when it fits in a byte. */
  lemma ParseEncodedMeasurement(bytes: seq<bv32>)
    requires AreBytes(bytes) && |bytes| >= 2
    ensures bytes[0] & 1 == 0 ==> ParseHeartRateMeasurement(Encode(bytes)) == Some(bytes[1] as int)
    ensures bytes[0] & 1 == 1 && |bytes| == 2 ==> ParseHeartRateMeasurement(Encode(bytes)) == None
    ensures bytes[0] & 1 == 1 && |bytes| >= 3 ==>
      ParseHeartRateMeasurement(Encode(bytes)) == if bytes[2] == 0 then Some(bytes[1] as int) else None
  {
    DecodeEncoded(bytes);
    HeartRateFromBytesCases(bytes);
  }

  /** "AUg=" carries the two bytes 0x01 0x48: flags announcing a uint16 value, and
      only its low byte. The decoder as written reads the padding as a third byte
      0, so the truncated measurement is accepted as 72 bpm; without the padding
      byte it is rejected. */
  lemma PaddingReadAsHighByte()
    ensures Encode([1, 72]) == "AUg="
    ensures Base64DecodeAsWritten("AUg=") == Success([1, 72, 0])
    ensures ParseHeartRateMeasurementAsWritten("AUg=") == Some(72)
    ensures Base64Decode("AUg=") == Success([1, 72])
    ensures ParseHeartRateMeasurement("AUg=") == None
  {
    EncodeFlagsAndLowByte();
    DecodeFlagsAndLowByte();
    AsWrittenWholeGroups("AUg=");
    CorrectedWholeGroups("AUg=");
    var kept := DecodeGroups("AUg=")[..3 * (|"AUg="| / 4) - PlaceHolders("AUg=")];
    assert kept == [1, 72, 0][..2] == [1, 72];
  }

  /** The group "AUg=" yields 0x01 0x48 and a third byte 0 from the `=`. */
  lemma DecodeFlagsAndLowByte()
    ensures DecodeGroups("AUg=") == [1, 72, 0] && PlaceHolders("AUg=") == 1
  {
    var v := SextetsOf("AUg=");
    assert v[0] == 0 && v[1] == 20 && v[2] == 32 && v[3] == 0;
    assert v[..0] == [];
    assert BytesOf(v) == GroupBytes(0, 20, 32, 0);
  }

  /** "AUg=" is the encoding of the two bytes 0x01 0x48. */
  lemma EncodeFlagsAndLowByte()
    ensures Encode([1, 72]) == "AUg="
  {
    var bytes: seq<bv32> := [1, 72];
    assert bytes[..0] == [] && bytes[0..] == bytes;
    assert SextetsFull([]) == [];
    var t := SextetsTail(bytes);
    assert t == [0, 20, 32];
    assert CharsOf(t) == "AUg";
  }

  // ---------------------------------------------------------------------------
  // Average
  // ---------------------------------------------------------------------------

  /** `averageBpm`: none for no readings, else the mean rounded half up. */
  function AverageBpm(samples: seq<HeartRateSample>): (avg: Option<int>)
    ensures avg.None? <==> samples == []
  {
    if |samples| == 0 then None
    else Some(Round(SumBpm(samples) as real / |samples| as real))
  }

  /** The average exists exactly when there are readings; it is the mean rounded
      to the nearest integer, halves up, and lies between the smallest and the
      largest reading. */
  lemma AverageBpmBounds(samples: seq<HeartRateSample>)
    ensures AverageBpm(samples).None? <==> samples == []
    ensures samples != [] ==>
      var r, mean := AverageBpm(samples).value, MeanBpm(samples).value;
      && r as real - 0.5 <= mean < r as real + 0.5
      && MinBpm(samples) <= r <= MaxBpm(samples)
  {
    if samples != [] {
      MeanBpmBetween(samples);
    }
  }
}
