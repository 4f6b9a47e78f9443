/** The sanctions Bloom filter of python/compliance/ofac_checker.py: bytes in a mapped file against
    the set of bit indices they stand for.  The two digests and the UTF-8 encoder are parameters. */
module BloomFilter {
  import opened Common

  type Bytes = seq<bv8>

  // ---------------------------------------------------------------------------
  // Bits of a byte
  // ---------------------------------------------------------------------------

  /** `1 << bit` */
  function Mask(bit: nat): bv8
    requires bit < 8
  {
    if bit == 0 then 1 else if bit == 1 then 2 else if bit == 2 then 4 else if bit == 3 then 8
    else if bit == 4 then 16 else if bit == 5 then 32 else if bit == 6 then 64 else 128
  }

  predicate HasBit(b: bv8, bit: nat)
    requires bit < 8
  {
    b & Mask(bit) != 0
  }

  lemma OrSetsOneBit(b: bv8, set1: nat, probe: nat)
    requires set1 < 8 && probe < 8
    ensures HasBit(b | Mask(set1), probe) <==> HasBit(b, probe) || probe == set1
  {
    OrMask(b, Mask(set1), Mask(probe));
    MasksDisjoint(set1, probe);
  }

  lemma OrMask(b: bv8, m: bv8, p: bv8)
    ensures (b | m) & p == 0 <==> b & p == 0 && m & p == 0
  {
  }

  lemma MaskIsShift(bit: nat)
    requires bit < 8
    ensures Mask(bit) == 1 << bit
  {
    if bit == 0 {
    } else if bit == 1 {
    } else if bit == 2 {
    } else if bit == 3 {
    } else if bit == 4 {
    } else if bit == 5 {
    } else if bit == 6 {
    } else {
      assert bit == 7;
    }
  }

  lemma MasksDisjoint(i: nat, j: nat)
    requires i < 8 && j < 8
    ensures Mask(i) & Mask(j) == 0 <==> i != j
  {
  }

  // ---------------------------------------------------------------------------
  // The bit array
  // ---------------------------------------------------------------------------

  /** Bit `idx` of the array: byte `idx // 8`, bit `idx % 8`. */
  predicate BitAt(bytes: Bytes, idx: nat)
    requires idx < 8 * |bytes|
  {
    HasBit(bytes[idx / 8], idx % 8)
  }

  /** The layout of the file. */
  lemma BitLayout(bytes: Bytes, byte: nat, bit: nat)
    requires byte < |bytes| && bit < 8
    ensures BitAt(bytes, 8 * byte + bit) <==> bytes[byte] & (1 << bit) != 0
  {
    MaskIsShift(bit);
    assert (8 * byte + bit) / 8 == byte && (8 * byte + bit) % 8 == bit;
  }

  function SetBit(bytes: Bytes, idx: nat): (r: Bytes)
    requires idx < 8 * |bytes|
    ensures |r| == |bytes|
  {
    bytes[idx / 8 := bytes[idx / 8] | Mask(idx % 8)]
  }

  lemma SetBitExact(bytes: Bytes, idx: nat, probe: nat)
    requires idx < 8 * |bytes| && probe < 8 * |bytes|
    ensures BitAt(SetBit(bytes, idx), probe) <==> BitAt(bytes, probe) || probe == idx
  {
    if probe / 8 == idx / 8 {
      OrSetsOneBit(bytes[idx / 8], idx % 8, probe % 8);
      assert probe == idx <==> probe % 8 == idx % 8;
    }
  }

  predicate InRange(indices: seq<nat>, size: nat) {
    forall k :: 0 <= k < |indices| ==> indices[k] < 8 * size
  }

  function SetBits(bytes: Bytes, indices: seq<nat>): (r: Bytes)
    requires InRange(indices, |bytes|)
    ensures |r| == |bytes|
    decreases |indices|
  {
    if indices == [] then bytes else SetBits(SetBit(bytes, indices[0]), indices[1..])
  }

  lemma {:induction false} SetBitsExact(bytes: Bytes, indices: seq<nat>, probe: nat)
    requires probe < 8 * |bytes|
    requires InRange(indices, |bytes|)
    ensures BitAt(SetBits(bytes, indices), probe) <==> BitAt(bytes, probe) || probe in indices
    decreases |indices|
  {
    if indices != [] {
      SetBitExact(bytes, indices[0], probe);
      SetBitsExact(SetBit(bytes, indices[0]), indices[1..], probe);
    }
  }

  // ---------------------------------------------------------------------------
  // Items
  // ---------------------------------------------------------------------------

  datatype Item = Str(text: string) | Raw(bytes: Bytes)

  /** Everything fixed when the filter is built. */
  datatype Params = Params(
    numBits: nat,
    numHashes: nat,
    encode: string -> Bytes,
    h1: Bytes -> nat,
    h2: Bytes -> nat)

  /** Rounding a bit count up to whole bytes. */
  function RoundToBytes(bits: nat): (r: nat)
    ensures r % 8 == 0 && bits <= r < bits + 8
  {
    (bits + 7) / 8 * 8
  }

  function Key(p: Params, item: Item): Bytes {
    match item
    case Str(text) => p.encode(Lower(text))
    case Raw(bytes) => bytes
  }

  function At(a: nat, b: nat, i: nat, n: nat): (idx: nat)
    requires n > 0
    ensures idx < n
  {
    (a + i * b) % n
  }

  /** The `i`-th index of double hashing. */
  function Index(p: Params, key: Bytes, i: nat): (idx: nat)
    requires p.numBits > 0
    ensures idx < p.numBits
  {
    At(p.h1(key), p.h2(key), i, p.numBits)
  }

  /** Double hashing: the first index is the first digest, and each further one the second digest ahead, modulo the
      number of bits. */
  lemma IndexSpacing(p: Params, key: Bytes, i: nat)
    requires p.numBits > 0
    ensures Index(p, key, 0) == p.h1(key) % p.numBits
    ensures Index(p, key, i + 1) == (Index(p, key, i) + p.h2(key)) % p.numBits
  {
    Spacing(p.h1(key), p.h2(key), i, p.numBits);
  }

  lemma Spacing(a: nat, b: nat, i: nat, n: nat)
    requires n > 0
    ensures At(a, b, 0, n) == a % n
    ensures At(a, b, i + 1, n) == (At(a, b, i, n) + b) % n
  {
    assert (i + 1) * b == i * b + b;
    RemainderOfSum(a + i * b, b, n);
  }

  function Indices(p: Params, key: Bytes): (r: seq<nat>)
    requires p.numBits > 0
    ensures |r| == p.numHashes
    ensures forall i :: 0 <= i < |r| ==> r[i] == Index(p, key, i)
  {
    seq(p.numHashes, i requires i >= 0 => Index(p, key, i))
  }

  /** The mapped file holds one bit per index. */
  ghost predicate Sized(p: Params, bytes: Bytes) {
    p.numBits > 0 && p.numBits == 8 * |bytes|
  }

  function Add(p: Params, bytes: Bytes, item: Item): (r: Bytes)
    requires Sized(p, bytes)
    ensures Sized(p, r)
  {
    SetBits(bytes, Indices(p, Key(p, item)))
  }

  ghost predicate Contains(p: Params, bytes: Bytes, item: Item)
    requires Sized(p, bytes)
  {
    forall idx :: idx in Indices(p, Key(p, item)) ==> BitAt(bytes, idx)
  }

  function AddAll(p: Params, bytes: Bytes, items: seq<Item>): (r: Bytes)
    requires Sized(p, bytes)
    ensures Sized(p, r)
    decreases |items|
  {
    if items == [] then bytes else AddAll(p, Add(p, bytes, items[0]), items[1..])
  }

  /** Some added item has this index. */
  ghost predicate Indexed(p: Params, items: seq<Item>, idx: nat)
    requires p.numBits > 0
  {
    exists x :: x in items && idx in Indices(p, Key(p, x))
  }

  /** After any additions the set bits are the initial ones and the added items' indices. */
  lemma {:induction false} BitsAreIndices(p: Params, bytes: Bytes, items: seq<Item>, idx: nat)
    requires Sized(p, bytes) && idx < p.numBits
    ensures BitAt(AddAll(p, bytes, items), idx) <==> BitAt(bytes, idx) || Indexed(p, items, idx)
    decreases |items|
  {
    if items != [] {
      SetBitsExact(bytes, Indices(p, Key(p, items[0])), idx);
      BitsAreIndices(p, Add(p, bytes, items[0]), items[1..], idx);
      assert forall x :: x in items <==> x == items[0] || x in items[1..];
    }
  }

  /** Equal, or strings that differ in letter case only. */
  ghost predicate SameUpToCase(x: Item, y: Item) {
    x == y || (x.Str? && y.Str? && Lower(x.text) == Lower(y.text))
  }

  /** No false negatives, from any initial bytes, up to lower-casing. */
  lemma NoFalseNegatives(p: Params, bytes: Bytes, items: seq<Item>, x: Item, y: Item)
    requires Sized(p, bytes) && x in items && SameUpToCase(x, y)
    ensures Contains(p, AddAll(p, bytes, items), y)
  {
    assert Key(p, x) == Key(p, y);
    forall idx | idx in Indices(p, Key(p, y)) ensures BitAt(AddAll(p, bytes, items), idx) {
      assert Indexed(p, items, idx);
      BitsAreIndices(p, bytes, items, idx);
    }
  }

  /** Raw bytes are hashed as they are, and a string as the encoding of its lower-case form. */
  lemma TextIsItsEncoding(p: Params, bytes: Bytes, text: string)
    requires Sized(p, bytes)
    ensures Contains(p, bytes, Str(text)) <==> Contains(p, bytes, Raw(p.encode(Lower(text))))
    ensures Add(p, bytes, Str(text)) == Add(p, bytes, Raw(p.encode(Lower(text))))
  {
  }

  /** From a zero file, membership is exactly the covering of an item's indices by added items'. */
  lemma ContainsExactly(p: Params, bytes: Bytes, items: seq<Item>, y: Item)
    requires Sized(p, bytes) && forall i :: 0 <= i < |bytes| ==> bytes[i] == 0
    ensures Contains(p, AddAll(p, bytes, items), y) <==>
            forall idx :: idx in Indices(p, Key(p, y)) ==> Indexed(p, items, idx)
  {
    forall idx | idx in Indices(p, Key(p, y))
      ensures BitAt(AddAll(p, bytes, items), idx) <==> Indexed(p, items, idx)
    {
      BitsAreIndices(p, bytes, items, idx);
      assert bytes[idx / 8] == 0;
    }
  }

  // ---------------------------------------------------------------------------
  // Checking an address
  // ---------------------------------------------------------------------------

  predicate IsSpace(c: char) { c == ' ' || '\t' <= c <= '\r' || '\U{1C}' <= c <= '\U{1F}' }

  /** The ASCII characters that `str.strip` takes away. */
  lemma BlankCharacters(c: char)
    ensures IsSpace(c) <==> c in " \t\n\U{B}\U{C}\r\U{1C}\U{1D}\U{1E}\U{1F}"
  {
    var blanks := " \t\n\U{B}\U{C}\r\U{1C}\U{1D}\U{1E}\U{1F}";
    assert blanks[0] == ' ' && blanks[1] == '\t' && blanks[2] == '\n' && blanks[3] == '\U{B}';
    assert blanks[4] == '\U{C}' && blanks[5] == '\r' && blanks[6] == '\U{1C}' && blanks[7] == '\U{1D}';
    assert blanks[8] == '\U{1E}' && blanks[9] == '\U{1F}';
  }

  function StripLeft(s: string): string {
    if s != [] && IsSpace(s[0]) then StripLeft(s[1..]) else s
  }

  function StripRight(s: string): string {
    if s != [] && IsSpace(s[|s| - 1]) then StripRight(s[..|s| - 1]) else s
  }

  /** `str.strip` */
  function Strip(s: string): string { StripRight(StripLeft(s)) }

  function Normalize(address: string): string { Strip(Lower(address)) }

  /** The address without a leading "0x". */
  function Bare(normalized: string): string {
    if "0x" <= normalized then normalized[2..] else normalized
  }

  ghost predicate CheckEvm(p: Params, bytes: Bytes, address: string)
    requires Sized(p, bytes)
  {
    Contains(p, bytes, Str(Normalize(address))) || Contains(p, bytes, Str(Bare(Normalize(address))))
  }

  ghost predicate Blank(s: string) {
    forall i :: 0 <= i < |s| ==> IsSpace(s[i])
  }

  /** Neither starts nor ends with a blank. */
  predicate Unpadded(s: string) {
    s != [] ==> !IsSpace(s[0]) && !IsSpace(s[|s| - 1])
  }

  lemma {:induction false} StripLeftBlank(l: string, s: string)
    requires Blank(l)
    ensures StripLeft(l + s) == StripLeft(s)
  {
    if l == [] {
      assert l + s == s;
    } else {
      assert (l + s)[1..] == l[1..] + s;
      StripLeftBlank(l[1..], s);
    }
  }

  lemma {:induction false} StripRightBlank(s: string, r: string)
    requires Blank(r)
    ensures StripRight(s + r) == StripRight(s)
  {
    if r == [] {
      assert s + r == s;
    } else {
      assert (s + r)[..|s + r| - 1] == s + r[..|r| - 1];
      StripRightBlank(s, r[..|r| - 1]);
    }
  }

  lemma StripPadding(l: string, s: string, r: string)
    requires Blank(l) && Blank(r) && Unpadded(s)
    ensures Strip(l + s + r) == s
  {
    assert l + s + r == l + (s + r);
    StripLeftBlank(l, s + r);
    if s == [] {
      assert s + r == r && r + [] == r;
      StripLeftBlank(r, []);
    } else {
      StripRightBlank(s, r);
    }
  }

  lemma {:induction false} LowerConcat(a: string, b: string)
    ensures Lower(a + b) == Lower(a) + Lower(b)
  {
    if a == [] {
      assert a + b == b;
    } else {
      assert (a + b)[1..] == a[1..] + b;
      LowerConcat(a[1..], b);
    }
  }

  lemma LowerTwice(s: string)
    ensures Lower(Lower(s)) == Lower(s)
  {
  }

  lemma LowerKeepsBlanks(s: string)
    ensures Blank(s) ==> Blank(Lower(s))
    ensures Unpadded(s) ==> Unpadded(Lower(s))
  {
  }

  /** Normalizing takes away letter case and the blanks around, and nothing else. */
  lemma NormalizePadded(l: string, s: string, r: string)
    requires Blank(l) && Blank(r) && Unpadded(s)
    ensures Normalize(l + s + r) == Lower(s)
  {
    LowerConcat(l + s, r);
    LowerConcat(l, s);
    LowerKeepsBlanks(l);
    LowerKeepsBlanks(s);
    LowerKeepsBlanks(r);
    StripPadding(Lower(l), Lower(s), Lower(r));
  }

  lemma LowerBare(s: string)
    ensures Lower(Bare(Lower(s))) == Bare(Lower(s))
  {
    var bare := Bare(Lower(s));
    assert forall i :: 0 <= i < |bare| ==> LowerChar(bare[i]) == bare[i];
    assert Lower(bare) == bare;
  }

  /** The two spellings that find a listed one: the same up to case, or with a "0x" that the listed one
      lacks. */
  predicate Finds(listed: string, address: string) {
    Lower(address) == Lower(listed) || Lower(address) == "0x" + Lower(listed)
  }

  /** A listed address is reported in any letter case, with blanks around it, and also when it was
      listed without its "0x" prefix. */
  lemma ListedIsSanctioned(p: Params, bytes: Bytes, items: seq<Item>, listed: string, l: string, address: string,
                           r: string)
    requires Sized(p, bytes) && Str(listed) in items
    requires Blank(l) && Blank(r) && Unpadded(address) && Finds(listed, address)
    ensures CheckEvm(p, AddAll(p, bytes, items), l + address + r)
  {
    NormalizePadded(l, address, r);
    LowerTwice(address);
    LowerBare(address);
    if Lower(address) == Lower(listed) {
      NoFalseNegatives(p, bytes, items, Str(listed), Str(Lower(address)));
    } else {
      assert Bare(Lower(address)) == Lower(listed);
      NoFalseNegatives(p, bytes, items, Str(listed), Str(Bare(Lower(address))));
    }
  }

  /** Reported whatever the hashes and the file. */
  ghost predicate Reported(listed: string, address: string) {
    forall p: Params, bytes :: Sized(p, bytes) ==> CheckEvm(p, Add(p, bytes, Str(listed)), address)
  }

  /** Hashes that tell one text from all others. */
  function Telling(text: string): Params {
    Params(8, 3,
           (s: string) => if s == text then [1] else [0],
           (key: Bytes) => if key == [1] then 0 else 1,
           (key: Bytes) => 0)
  }

  lemma TellingIndices(text: string, x: string, idx: nat)
    ensures idx in Indices(Telling(text), Key(Telling(text), Str(x))) <==> idx == if Lower(x) == text then 0 else 1
  {
    var p := Telling(text);
    var key := Key(p, Str(x));
    assert key == if Lower(x) == text then [1] else [0];
    assert forall i :: 0 <= i < 3 ==> Indices(p, key)[i] == Index(p, key, i) == p.h1(key);
    assert Indices(p, key)[0] in Indices(p, key);
  }

  lemma TellingTells(listed: string, text: string)
    requires Lower(text) != Lower(listed)
    ensures Sized(Telling(Lower(listed)), [0])
    ensures !Contains(Telling(Lower(listed)), Add(Telling(Lower(listed)), [0], Str(listed)), Str(text))
  {
    var p := Telling(Lower(listed));
    TellingIndices(Lower(listed), listed, 1);
    TellingIndices(Lower(listed), text, 1);
    SetBitsExact([0], Indices(p, Key(p, Str(listed))), 1);
  }

  lemma MissedSpelling(listed: string, address: string)
    requires !Finds(listed, address)
    ensures Lower(Lower(address)) != Lower(listed) && Lower(Bare(Lower(address))) != Lower(listed)
  {
    LowerTwice(address);
    LowerBare(address);
    if "0x" <= Lower(address) {
      assert Lower(address) == "0x" + Lower(address)[2..];
    }
  }

  /** A listed spelling is sure to be reported for exactly the addresses it finds. */
  lemma SpellingExact(listed: string, l: string, address: string, r: string, padded: string)
    requires Blank(l) && Blank(r) && Unpadded(address) && padded == l + address + r
    ensures Reported(listed, padded) <==> Finds(listed, address)
  {
    if Finds(listed, address) {
      forall p: Params, bytes | Sized(p, bytes) ensures CheckEvm(p, Add(p, bytes, Str(listed)), padded) {
        ListedIsSanctioned(p, bytes, [Str(listed)], listed, l, address, r);
        assert AddAll(p, bytes, [Str(listed)]) == Add(p, bytes, Str(listed));
      }
    } else {
      NormalizePadded(l, address, r);
      MissedSpelling(listed, address);
      TellingTells(listed, Lower(address));
      TellingTells(listed, Bare(Lower(address)));
    }
  }

  lemma PrefixFinds(address: string)
    requires Unpadded(address)
    ensures Unpadded("0x" + address) && Finds(address, "0x" + address) && !Finds("0x" + address, address)
  {
    var prefixed := "0x" + address;
    assert |Lower(prefixed)| == |address| + 2;
    forall i | 0 <= i < |prefixed| ensures Lower(prefixed)[i] == ("0x" + Lower(address))[i] {
    }
    assert Lower(prefixed) == "0x" + Lower(address);
    assert |"0x" + Lower(prefixed)| == |address| + 4;
  }

  /** So an address listed with its "0x" prefix is missed when it is checked without. */
  lemma PrefixListedIsMissed(address: string)
    requires Unpadded(address)
    ensures Reported(address, "0x" + address) && !Reported("0x" + address, address)
  {
    var prefixed := "0x" + address;
    PrefixFinds(address);
    SpellingExact(prefixed, [], address, [], address);
    SpellingExact(address, [], prefixed, [], prefixed);
  }

  // ---------------------------------------------------------------------------
  // The classes
  // ---------------------------------------------------------------------------

  class MmapBloomFilter {
    const p: Params
    const bitArray: array<bv8>
    var count: nat

    ghost predicate Valid()
      reads this, bitArray
    {
      Sized(p, bitArray[..])
    }

    /** `bits` is what the sizing formula gives; the file may hold anything. */
    constructor (bits: nat, hashes: nat, encode: string -> Bytes, h1: Bytes -> nat, h2: Bytes -> nat, file: array<bv8>)
      requires bits > 0 && file.Length == RoundToBytes(bits) / 8
      ensures Valid() && bitArray == file && count == 0
      ensures p.numHashes >= 3 && (hashes >= 3 ==> p.numHashes == hashes)
      ensures p == Params(RoundToBytes(bits), if hashes < 3 then 3 else hashes, encode, h1, h2)
    {
      p := Params(RoundToBytes(bits), if hashes < 3 then 3 else hashes, encode, h1, h2);
      bitArray := file;
      count := 0;
    }

    method AddItem(item: Item)
      requires Valid()
      modifies this, bitArray
      ensures Valid() && bitArray[..] == Add(p, old(bitArray[..]), item)
      ensures count == old(count) + 1
    {
      var indices := Indices(p, Key(p, item));
      var i := 0;
      while i < |indices|
        invariant 0 <= i <= |indices| && count == old(count)
        invariant SetBits(bitArray[..], indices[i..]) == SetBits(old(bitArray[..]), indices)
      {
        var idx := indices[i];
        ghost var before, rest := bitArray[..], indices[i..];
        assert rest[0] == idx && rest[1..] == indices[i + 1..];
        bitArray[idx / 8] := bitArray[idx / 8] | Mask(idx % 8);
        assert bitArray[..] == SetBit(before, idx);
        i := i + 1;
      }
      assert indices[i..] == [];
      assert bitArray[..] == SetBits(old(bitArray[..]), indices);
      count := count + 1;
    }

    method ContainsItem(item: Item) returns (found: bool)
      requires Valid()
      ensures found <==> Contains(p, bitArray[..], item)
    {
      var indices := Indices(p, Key(p, item));
      var i := 0;
      while i < |indices|
        invariant 0 <= i <= |indices|
        invariant forall k :: 0 <= k < i ==> BitAt(bitArray[..], indices[k])
      {
        var idx := indices[i];
        if bitArray[idx / 8] & Mask(idx % 8) == 0 {
          assert !BitAt(bitArray[..], idx) && idx in indices;
          return false;
        }
        i := i + 1;
      }
      found := true;
    }
  }

  class OFACChecker {
    const bloom: MmapBloomFilter
    var checksCount: nat
    var blocksCount: nat

    constructor (bloom: MmapBloomFilter)
      ensures this.bloom == bloom && checksCount == 0 && blocksCount == 0
    {
      this.bloom := bloom;
      checksCount, blocksCount := 0, 0;
    }

    method Check(address: string) returns (sanctioned: bool)
      requires bloom.Valid()
      modifies this
      ensures sanctioned <==> CheckEvm(bloom.p, bloom.bitArray[..], address)
      ensures checksCount == old(checksCount) + 1
      ensures blocksCount == old(blocksCount) + (if sanctioned then 1 else 0)
    {
      checksCount := checksCount + 1;
      var normalized := Normalize(address);
      sanctioned := bloom.ContainsItem(Str(normalized));
      if !sanctioned {
        sanctioned := bloom.ContainsItem(Str(Bare(normalized)));
      }
      if sanctioned {
        blocksCount := blocksCount + 1;
      }
    }
  }
}
