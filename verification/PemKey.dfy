/** OpenSSH PEM keys. */
module PemKey {
  import opened Bytes
  import opened SshWire
  import opened Ber
  import opened KeyBlobs
  import opened Bignum

  // OpenSSH PEM private keys: RSA and DSA keys as an ASN.1 SEQUENCE of INTEGERs.
  //
  // The reader rebuilds from the integers the public and private blobs the writer
  // took them from, byte for byte, with or without the padding that encryption adds.

  /** The primes of an RSA key must leave something to divide by. */
  predicate Moduli(k: KeyParts) {
    k.RsaParts? ==> Value(k.p) > 1 && Value(k.q) > 1
  }

  /** The integers that go into the file; the two remainders are computed, not stored in the blobs. */
  function Numbers(k: KeyParts): seq<seq<Byte>>
    requires Moduli(k)
  {
    match k
    case RsaParts(e, n, d, p, q, iqmp) =>
      [[0], n, e, d, p, q, SignedBytes(Remainder(d, p)), SignedBytes(Remainder(d, q)), iqmp]
    case DsaParts(p, q, g, y, x) => [[0], p, q, g, y, x]
  }

  predicate Sizes(numbers: seq<seq<Byte>>) {
    forall i :: 0 <= i < |numbers| ==> |numbers[i]| < 0x100_0000
  }

  function Integer(n: seq<Byte>): seq<Byte>
    requires |n| < 0x100_0000
  {
    BerHeader(2, |n|, 0) + n
  }

  function PemBody(numbers: seq<seq<Byte>>): seq<Byte>
    requires Sizes(numbers)
  {
    if numbers == [] then [] else Integer(numbers[0]) + PemBody(numbers[1..])
  }

  /** Small enough for the 32-bit shifts of the length encoder. */
  predicate Fits(numbers: seq<seq<Byte>>) {
    Sizes(numbers) && |PemBody(numbers)| < 0x100_0000
  }

  function PemBlob(numbers: seq<seq<Byte>>): seq<Byte>
    requires Fits(numbers)
  {
    BerHeader(16, |PemBody(numbers)|, CONSTRUCTED) + PemBody(numbers)
  }

  // ------------------------------------------------------------------
  // The writer

  lemma FieldsAreNumbers(k: KeyParts)
    requires Moduli(k) && Sizes(Numbers(k))
    ensures forall i :: 0 <= i < |PublicFields(k)| ==> |PublicFields(k)[i]| < 0x8000_0000
    ensures forall i :: 0 <= i < |PrivateFields(k)| ==> |PrivateFields(k)[i]| < 0x8000_0000
  {
    var numbers := Numbers(k);
    hide SignedBytes, Remainder;
    forall f | f in PublicFields(k) || f in PrivateFields(k)
      ensures |f| < 0x100_0000
    {
      assert f in numbers;
    }
  }

  /** Collects the integers to be written. */
  method CollectNumbers(t: KeyType, pubblob: seq<Byte>, privblob: seq<Byte>, ghost k: KeyParts)
    returns (numbers: seq<seq<Byte>>)
    requires t == TypeOf(k) && pubblob == PublicBlob(k) && privblob == PrivateBlob(k)
    requires Moduli(k) && Fits(Numbers(k))
    ensures numbers == Numbers(k)
  {
    hide SignedBytes, Remainder, SshStrings, Get32, PemBody;
    FieldsAreNumbers(k);
    SkipName(k);
    var pos := 4 + Get32(pubblob);
    assert privblob[0..] == privblob;
    if t == RSA {
      var pub := ReadFields(pubblob, pos, 2, PublicFields(k));
      var priv := ReadFields(privblob, 0, 4, PrivateFields(k));
      var dmp1 := BignumBytes(Remainder(priv[0], priv[1]));
      var dmq1 := BignumBytes(Remainder(priv[0], priv[2]));
      numbers := [[0], pub[1], pub[0], priv[0], priv[1], priv[2], dmp1, dmq1, priv[3]];
    } else {
      var pub := ReadFields(pubblob, pos, 4, PublicFields(k));
      var priv := ReadFields(privblob, 0, 1, PrivateFields(k));
      numbers := [[0], pub[0], pub[1], pub[2], pub[3], priv[0]];
    }
  }

  lemma {:induction false} PemBodySplit(numbers: seq<seq<Byte>>, i: nat)
    requires Sizes(numbers) && i < |numbers|
    ensures PemBody(numbers[..i + 1]) == PemBody(numbers[..i]) + Integer(numbers[i])
    ensures |PemBody(numbers[..i + 1])| <= |PemBody(numbers)|
  {
    hide Integer;
    PemBodyHead(numbers, i + 1);
    PemBodyHead(numbers, |numbers|);
    assert numbers[..|numbers|] == numbers;
    if i == 0 {
      assert numbers[1..][..0] == [] && numbers[..0] == [];
    } else {
      PemBodyHead(numbers, i);
      PemBodySplit(numbers[1..], i - 1);
      ConcatAssoc(Integer(numbers[0]), PemBody(numbers[1..][..i - 1]), Integer(numbers[i]));
    }
  }

  lemma PemBodyHead(numbers: seq<seq<Byte>>, i: nat)
    requires Sizes(numbers) && 0 < i <= |numbers|
    ensures PemBody(numbers[..i]) == Integer(numbers[0]) + PemBody(numbers[1..][..i - 1])
  {
    hide Integer;
    assert numbers[..i][1..] == numbers[1..][..i - 1];
  }

  /** The first pass, with no buffer: how long the integers will be. */
  method SizeOfIntegers(numbers: seq<seq<Byte>>) returns (len: nat)
    requires Sizes(numbers)
    ensures len == |PemBody(numbers)|
  {
    len := 0;
    var i := 0;
    while i < |numbers|
      invariant 0 <= i <= |numbers| && len == |PemBody(numbers[..i])|
    {
      PemBodySplit(numbers, i);
      var head := BerWriteIdLen(null, 0, 2, |numbers[i]|, 0);
      len := len + head + |numbers[i]|;
      i := i + 1;
    }
    assert numbers[..i] == numbers;
  }

  method WriteInteger(outblob: array<Byte>, pos: nat, n: seq<Byte>) returns (end: nat)
    requires |n| < 0x100_0000 && pos + |Integer(n)| <= outblob.Length
    modifies outblob
    ensures end == pos + |Integer(n)|
    ensures outblob[..end] == old(outblob[..pos]) + Integer(n)
  {
    ghost var lead, header := outblob[..pos], BerHeader(2, |n|, 0);
    var head := BerWriteIdLen(outblob, pos, 2, |n|, 0);
    end := Append(outblob, pos + head, n);
    ConcatAssoc(lead, header, n);
  }

  method WriteIntegers(outblob: array<Byte>, start: nat, numbers: seq<seq<Byte>>) returns (pos: nat)
    requires Sizes(numbers) && start + |PemBody(numbers)| <= outblob.Length
    modifies outblob
    ensures pos == start + |PemBody(numbers)|
    ensures outblob[..pos] == old(outblob[..start]) + PemBody(numbers)
  {
    pos := start;
    ghost var lead := outblob[..start];
    var i := 0;
    while i < |numbers|
      invariant 0 <= i <= |numbers| && pos == start + |PemBody(numbers[..i])| <= outblob.Length
      invariant outblob[..pos] == lead + PemBody(numbers[..i])
    {
      PemBodySplit(numbers, i);
      ghost var done, next := PemBody(numbers[..i]), Integer(numbers[i]);
      pos := WriteInteger(outblob, pos, numbers[i]);
      ConcatAssoc(lead, done, next);
      i := i + 1;
    }
    assert numbers[..i] == numbers;
  }

  /** What the sizing pass finds is what the writing pass fills. */
  method WriteBlob(numbers: seq<seq<Byte>>) returns (outblob: array<Byte>)
    requires Fits(numbers)
    ensures fresh(outblob) && outblob[..] == PemBlob(numbers)
  {
    ghost var body := PemBody(numbers);
    ghost var header := BerHeader(16, |body|, CONSTRUCTED);
    var seqlen := SizeOfIntegers(numbers);
    var head := BerWriteIdLen(null, 0, 16, seqlen, CONSTRUCTED);
    outblob := new Byte[seqlen + head];
    var pos := BerWriteIdLen(outblob, 0, 16, seqlen, CONSTRUCTED);
    assert outblob[..pos] == header;
    pos := WriteIntegers(outblob, pos, numbers);
    assert outblob[..pos] == outblob[..] == header + body;
  }

  /** Every padding byte holds the number of padding bytes, of which there are 1 to 8. */
  function Padded(blob: seq<Byte>): (r: seq<Byte>)
    ensures |r| % 8 == 0 && |blob| < |r| <= |blob| + 8
    ensures blob <= r && forall i :: |blob| <= i < |r| ==> r[i] == |r| - |blob|
  {
    var pad := 8 - |blob| % 8;
    blob + seq(pad, i => pad)
  }

  method PadToBlock(blob: array<Byte>) returns (outblob: array<Byte>)
    ensures fresh(outblob) && outblob[..] == Padded(blob[..])
  {
    hide Padded;
    ghost var padded := Padded(blob[..]);
    var len := blob.Length;
    var outlen := (len + 8) / 8 * 8;
    assert |padded| == outlen;
    outblob := new Byte[outlen];
    var pos := Append(outblob, 0, blob[..]);
    while pos < outlen
      invariant len <= pos <= outlen && outlen - len <= 8
      invariant outblob[..pos] == padded[..pos]
    {
      outblob[pos] := outlen - len;
      pos := pos + 1;
    }
  }

  /** The whole of the writer, up to the file: with a passphrase the blob is padded and enciphered. */
  method PemWrite(t: KeyType, pubblob: seq<Byte>, privblob: seq<Byte>, encipher: Option<seq<Byte> -> seq<Byte>>,
                  ghost k: KeyParts)
    returns (file: seq<Byte>)
    requires t == TypeOf(k) && pubblob == PublicBlob(k) && privblob == PrivateBlob(k)
    requires Moduli(k) && Fits(Numbers(k))
    ensures file == match encipher
      case None => PemBlob(Numbers(k))
      case Some(enc) => enc(Padded(PemBlob(Numbers(k))))
  {
    var numbers := CollectNumbers(t, pubblob, privblob, k);
    var outblob := WriteBlob(numbers);
    match encipher
    case None => file := outblob[..];
    case Some(enc) =>
      var padded := PadToBlock(outblob);
      file := enc(padded[..]);
  }

  // ------------------------------------------------------------------
  // The reader

  datatype PemResult =
    | Key(blobs: Blobs)
    | DecodingFailure
    | VersionMismatch

  function IntegerCount(t: KeyType): nat {
    if t == RSA then 9 else 6
  }

  /** One INTEGER at the front of `src`. */
  function ReadInteger(src: seq<Byte>): (r: Option<Parsed<seq<Byte>>>)
    ensures r.Some? ==> |r.value.rest| + |r.value.value| + 1 <= |src|
  {
    match ReadIdLen(src)
    case None => None
    case Some(h) =>
      if h.id != 2 || h.length < 0 || |src| - h.used < h.length then None
      else Some(Parsed(src[h.used..h.used + h.length], src[h.used + h.length..]))
  }

  /** `n` more integers after those in `found`. */
  function ReadIntegers(src: seq<Byte>, n: nat, found: seq<seq<Byte>>): (r: Option<seq<seq<Byte>>>)
    ensures r.Some? ==> |r.value| == |found| + n
  {
    if n == 0 then Some(found)
    else
      match ReadInteger(src)
      case None => None
      case Some(p) => ReadIntegers(p.rest, n - 1, found + [p.value])
  }

  /** What the reader appends to the blob after the `i`th integer, counting from 1. */
  function Emission(t: KeyType, ints: seq<seq<Byte>>): seq<Byte>
    requires ints != []
  {
    var last := ints[|ints| - 1];
    if t == DSA then SshString(last)
    else if |ints| == 1 || |ints| == 6 || |ints| == 7 then []
    else if |ints| == 2 then SshString(last) + SshString(ints[0])
    else SshString(last)
  }

  /** The blob under construction. */
  function Emitted(t: KeyType, ints: seq<seq<Byte>>): seq<Byte> {
    if ints == [] then SshString(AlgName(t))
    else Emitted(t, ints[..|ints| - 1]) + Emission(t, ints)
  }

  /** How many integers the public blob takes. */
  function PublicCount(t: KeyType): nat {
    if t == RSA then 2 else 4
  }

  /** The blob after all the integers, cut where the public part ends. */
  function Rebuilt(t: KeyType, ints: seq<seq<Byte>>): Blobs
    requires |ints| == IntegerCount(t) - 1
  {
    var public := Emitted(t, ints[..PublicCount(t)]);
    EmittedGrows(t, ints, PublicCount(t));
    Blobs(public, Emitted(t, ints)[|public|..])
  }

  lemma {:induction false} EmittedGrows(t: KeyType, ints: seq<seq<Byte>>, n: nat)
    requires n <= |ints|
    ensures Emitted(t, ints[..n]) <= Emitted(t, ints)
  {
    if n == |ints| {
      assert ints[..n] == ints;
    } else {
      var init := ints[..|ints| - 1];
      EmittedGrows(t, init, n);
      assert init[..n] == ints[..n];
    }
  }

  function ReadPem(blob: seq<Byte>, t: KeyType): PemResult {
    match ReadIdLen(blob)
    case None => DecodingFailure
    case Some(h) =>
      if h.id != 16 || h.length < 0 || |blob| - h.used < h.length then DecodingFailure
      else ReadSequence(blob[h.used..], t)
  }

  /** The contents of the SEQUENCE; its length is not consulted again. */
  function ReadSequence(inner: seq<Byte>, t: KeyType): PemResult {
    match ReadInteger(inner)
    case None => DecodingFailure
    case Some(version) =>
      if version.value != [0] then VersionMismatch else ReadKeyIntegers(version.rest, t)
  }

  function ReadKeyIntegers(src: seq<Byte>, t: KeyType): PemResult {
    match ReadIntegers(src, IntegerCount(t) - 1, [])
    case None => DecodingFailure
    case Some(ints) => Key(Rebuilt(t, ints))
  }

  /** The space the integers found so far can take up in the blob. */
  function Space(ints: seq<seq<Byte>>): nat {
    if ints == [] then 0 else Space(ints[..|ints| - 1]) + 4 + |ints[|ints| - 1]|
  }

  lemma {:induction false} EmittedBounded(t: KeyType, ints: seq<seq<Byte>>)
    ensures |Emitted(t, ints)| + (if t == RSA && |ints| == 1 then 4 + |ints[0]| else 0) <= 11 + Space(ints)
  {
    if ints != [] {
      EmittedBounded(t, ints[..|ints| - 1]);
      if |ints| == 2 {
        assert ints[..1][0] == ints[0];
      }
    }
  }

  /** Every integer takes at least one byte of the file besides its own. */
  lemma {:induction false} SpaceIsPaidFor(src: seq<Byte>, n: nat, found: seq<seq<Byte>>)
    ensures var r := ReadIntegers(src, n, found); r.Some? ==> Space(r.value) <= Space(found) + |src| + 3 * n
    decreases n
  {
    hide ReadInteger;
    if n > 0 && ReadInteger(src).Some? {
      var p := ReadInteger(src).value;
      assert (found + [p.value])[..|found|] == found;
      SpaceIsPaidFor(p.rest, n - 1, found + [p.value]);
    }
  }

  /** Whatever the file holds, what is written from its integers stays within the blob of `256 + |keyblob|` bytes. */
  lemma EmittedFits(keyblob: seq<Byte>, start: nat, t: KeyType, n: nat)
    requires start <= |keyblob| && n < IntegerCount(t)
    ensures match ReadIntegers(keyblob[start..], n, [])
      case None => true
      case Some(ints) => |Emitted(t, ints)| <= 256 + |keyblob|
  {
    SpaceIsPaidFor(keyblob[start..], n, []);
    if ReadIntegers(keyblob[start..], n, []).Some? {
      EmittedBounded(t, ReadIntegers(keyblob[start..], n, []).value);
    }
  }

  lemma EmittedNothing(t: KeyType)
    ensures Emitted(t, []) == SshString(AlgName(t)) && |Emitted(t, [])| == 11 && Space([]) == 0
  {
  }

  /** What one more integer does to the blob. */
  lemma OneMore(t: KeyType, ints: seq<seq<Byte>>, number: seq<Byte>)
    ensures var ints' := ints + [number];
      && Emitted(t, ints') == Emitted(t, ints) + Emission(t, ints')
      && Space(ints') == Space(ints) + 4 + |number|
      && |Emitted(t, ints')| <= 11 + Space(ints')
  {
    var ints' := ints + [number];
    assert ints'[..|ints|] == ints;
    EmittedBounded(t, ints');
  }

  /** Stores one integer, or for the RSA modulus keeps it back. */
  method StoreInteger(blob: array<Byte>, blobptr: nat, t: KeyType, i: nat, n: seq<Byte>, modulus: seq<Byte>,
                      ghost ints: seq<seq<Byte>>)
    returns (end: nat)
    requires i == |ints| + 1 && (t == RSA && i == 2 ==> modulus == ints[0])
    requires blobptr + |Emission(t, ints + [n])| <= blob.Length
    modifies blob
    ensures end == blobptr + |Emission(t, ints + [n])|
    ensures blob[..end] == old(blob[..blobptr]) + Emission(t, ints + [n])
  {
    end := blobptr;
    ghost var lead := blob[..blobptr];
    if t == RSA {
      if i != 1 && i != 6 && i != 7 {
        end := PutString(blob, end, n);
        if i == 2 {
          end := PutString(blob, end, modulus);
          ConcatAssoc(lead, SshString(n), SshString(modulus));
        }
      }
    } else {
      end := PutString(blob, end, n);
    }
  }

  /** Where the integer at `p` starts and ends, if there is one. */
  method NextInteger(keyblob: seq<Byte>, p: nat) returns (ok: bool, first: nat, end: nat)
    requires p <= |keyblob|
    ensures ok == ReadInteger(keyblob[p..]).Some?
    ensures ok ==> p < first <= end <= |keyblob|
    ensures ok ==> ReadInteger(keyblob[p..]) == Some(Parsed(keyblob[first..end], keyblob[end..]))
  {
    var src := keyblob[p..];
    var h := BerReadIdLen(src);
    if h == None || h.value.id != 2 || h.value.length < 0 || |src| - h.value.used < h.value.length {
      return false, 0, 0;
    }
    ok, first := true, p + h.value.used;
    end := first + h.value.length;
    assert src[h.value.used..h.value.used + h.value.length] == keyblob[first..end];
    assert src[h.value.used + h.value.length..] == keyblob[end..];
  }

  /** The blob holds what the integers so far give, and they have been paid for in bytes read. */
  ghost predicate Underway(blob: seq<Byte>, blobptr: nat, t: KeyType, ints: seq<seq<Byte>>, p: nat) {
    && blobptr <= |blob| && blob[..blobptr] == Emitted(t, ints)
    && Space(ints) <= p + 3 * |ints|
  }

  /** One turn: the integer found at `p` joins the blob. */
  method TakeInteger(blob: array<Byte>, blobptr: nat, t: KeyType, i: nat, number: seq<Byte>, modulus: seq<Byte>,
                     ghost ints: seq<seq<Byte>>, ghost p: nat, ghost end: nat)
    returns (next: nat)
    requires Underway(blob[..], blobptr, t, ints, p) && i == |ints| + 1 < 9
    requires p + 1 + |number| <= end && end + 256 <= blob.Length
    requires t == RSA && i >= 2 ==> modulus == ints[0]
    modifies blob
    ensures Underway(blob[..], next, t, ints + [number], end)
    ensures next == |Emitted(t, ints + [number])|
  {
    OneMore(t, ints, number);
    ghost var before := blob[..blobptr];
    assert blob[..][..blobptr] == before;
    next := StoreInteger(blob, blobptr, t, i, number, modulus, ints);
    assert blob[..][..next] == blob[..next];
  }

  lemma StartUnderway(blob: seq<Byte>, blobptr: nat, t: KeyType, start: nat, name: seq<Byte>)
    requires blobptr <= |blob| && name == blob[..blobptr] == SshString(AlgName(t))
    ensures Underway(blob, blobptr, t, [], start)
  {
  }

  lemma PublicPart(t: KeyType, ints: seq<seq<Byte>>, number: seq<Byte>)
    ensures var ints' := ints + [number];
      && (|ints'| == PublicCount(t) ==> ints'[..PublicCount(t)] == ints')
      && (|ints| >= PublicCount(t) ==> ints'[..PublicCount(t)] == ints[..PublicCount(t)])
  {
  }

  lemma ReadNoMore(src: seq<Byte>, found: seq<seq<Byte>>)
    ensures ReadIntegers(src, 0, found) == Some(found)
  {
  }

  lemma ReadOneMore(src: seq<Byte>, n: nat, found: seq<seq<Byte>>)
    requires n > 0
    ensures ReadIntegers(src, n, found) == match ReadInteger(src)
      case None => None
      case Some(p) => ReadIntegers(p.rest, n - 1, found + [p.value])
  {
  }

  /** The blob after the last integer, cut where the public part ends. */
  lemma BlobParts(blob: seq<Byte>, blobptr: nat, t: KeyType, ints: seq<seq<Byte>>, privptr: nat, p: nat)
    requires |ints| == IntegerCount(t) - 1 && Underway(blob, blobptr, t, ints, p)
    requires privptr == |Emitted(t, ints[..PublicCount(t)])|
    ensures privptr <= blobptr <= |blob| && Blobs(blob[..privptr], blob[privptr..blobptr]) == Rebuilt(t, ints)
  {
    EmittedGrows(t, ints, PublicCount(t));
    assert blob[..blobptr][..privptr] == blob[..privptr];
    assert blob[..blobptr][privptr..] == blob[privptr..blobptr];
  }

  /** Untangles the integers into a blob of `256 + |keyblob|` bytes, which is always enough. */
  method RebuildBlobs(keyblob: seq<Byte>, start: nat, t: KeyType) returns (r: PemResult)
    requires start <= |keyblob|
    ensures r == ReadKeyIntegers(keyblob[start..], t)
  {
    hide Emitted, SshString, Emission, ReadInteger, ReadIntegers, Underway, Space, Rebuilt;
    EmittedNothing(t);
    var blob := new Byte[256 + |keyblob|];
    var blobptr: nat := PutString(blob, 0, AlgName(t));
    StartUnderway(blob[..], blobptr, t, start, blob[..blobptr]);
    var modulus: seq<Byte>, privptr: nat, p: nat, i: nat := [], 0, start, 1;
    ghost var ints: seq<seq<Byte>>, n := [], IntegerCount(t) - 1;
    ghost var all := ReadIntegers(keyblob[start..], n, []);
    while i < IntegerCount(t)
      invariant 1 <= i <= n + 1 && i == |ints| + 1 && p <= |keyblob|
      invariant ReadIntegers(keyblob[p..], n + 1 - i, ints) == all
      invariant t == RSA && i >= 2 ==> modulus == ints[0]
      invariant Underway(blob[..], blobptr, t, ints, p)
      invariant i > PublicCount(t) ==> privptr == |Emitted(t, ints[..PublicCount(t)])|
    {
      var ok, first, end := NextInteger(keyblob, p);
      ReadOneMore(keyblob[p..], n + 1 - i, ints);
      if !ok {
        return DecodingFailure;
      }
      var number := keyblob[first..end];
      PublicPart(t, ints, number);
      blobptr := TakeInteger(blob, blobptr, t, i, number, modulus, ints, p, end);
      if i == 1 {
        modulus := number;
      }
      if i == PublicCount(t) {
        privptr := blobptr;
      }
      p := end;
      ints := ints + [number];
      i := i + 1;
    }
    ReadNoMore(keyblob[p..], ints);
    ghost var written := blob[..];
    BlobParts(written, blobptr, t, ints, privptr, p);
    assert blob[..privptr] == written[..privptr] && blob[privptr..blobptr] == written[privptr..blobptr];
    return Key(Blobs(blob[..privptr], blob[privptr..blobptr]));
  }

  method ReadVersionAndKey(inner: seq<Byte>, t: KeyType) returns (r: PemResult)
    ensures r == ReadSequence(inner, t)
  {
    hide ReadInteger, ReadKeyIntegers;
    assert inner[0..] == inner;
    var ok, first, end := NextInteger(inner, 0);
    if !ok {
      return DecodingFailure;
    }
    if end - first != 1 || inner[first] != 0 {
      return VersionMismatch;
    }
    assert inner[first..end] == [0];
    r := RebuildBlobs(inner, end, t);
  }

  method PemRead(keyblob: seq<Byte>, t: KeyType) returns (r: PemResult)
    ensures r == ReadPem(keyblob, t)
  {
    var h := BerReadIdLen(keyblob);
    if h == None || h.value.id != 16 || h.value.length < 0 || |keyblob| - h.value.used < h.value.length {
      return DecodingFailure;
    }
    r := ReadVersionAndKey(keyblob[h.value.used..], t);
  }

  // ------------------------------------------------------------------
  // The round trip

  lemma ReadIntegerBack(n: seq<Byte>, rest: seq<Byte>)
    requires |n| < 0x100_0000
    ensures ReadInteger(Integer(n) + rest) == Some(Parsed(n, rest))
  {
    var header := BerHeader(2, |n|, 0);
    ReadShortId(2, |n|, 0, n + rest);
    ConcatAssoc(header, n, rest);
    var src := Integer(n) + rest;
    assert src == header + (n + rest);
    assert src[|header|..|header| + |n|] == n && src[|header| + |n|..] == rest;
  }

  lemma IntegersStep(n: seq<Byte>, rest: seq<Byte>, count: nat, found: seq<seq<Byte>>)
    requires |n| < 0x100_0000 && count > 0
    ensures ReadIntegers(Integer(n) + rest, count, found) == ReadIntegers(rest, count - 1, found + [n])
  {
    ReadIntegerBack(n, rest);
  }

  lemma {:induction false} ReadIntegersBack(numbers: seq<seq<Byte>>, tail: seq<Byte>, found: seq<seq<Byte>>)
    requires Sizes(numbers)
    ensures ReadIntegers(PemBody(numbers) + tail, |numbers|, found) == Some(found + numbers)
  {
    hide Integer, ReadInteger;
    if numbers == [] {
      assert found + numbers == found;
    } else {
      var rest := PemBody(numbers[1..]) + tail;
      assert PemBody(numbers) + tail == Integer(numbers[0]) + rest;
      IntegersStep(numbers[0], rest, |numbers|, found);
      ReadIntegersBack(numbers[1..], tail, found + [numbers[0]]);
      assert found + [numbers[0]] + numbers[1..] == found + numbers;
    }
  }

  /** Whatever follows the SEQUENCE does not matter to the reader. */
  lemma ReadPemBack(numbers: seq<seq<Byte>>, tail: seq<Byte>, t: KeyType)
    requires Fits(numbers) && |numbers| == IntegerCount(t) && numbers[0] == [0]
    ensures ReadPem(PemBlob(numbers) + tail, t) == Key(Rebuilt(t, numbers[1..]))
  {
    var body := PemBody(numbers);
    var header := BerHeader(16, |body|, CONSTRUCTED);
    var blob := PemBlob(numbers) + tail;
    ReadShortId(16, |body|, CONSTRUCTED, body + tail);
    ConcatAssoc(header, body, tail);
    assert blob[|header|..] == body + tail;
    var rest := PemBody(numbers[1..]) + tail;
    ConcatAssoc(Integer([0]), PemBody(numbers[1..]), tail);
    ReadIntegerBack([0], rest);
    ReadIntegersBack(numbers[1..], tail, []);
    assert [] + numbers[1..] == numbers[1..];
  }

  lemma RebuiltRsa(e: seq<Byte>, n: seq<Byte>, d: seq<Byte>, p: seq<Byte>, q: seq<Byte>,
                   dmp1: seq<Byte>, dmq1: seq<Byte>, iqmp: seq<Byte>)
    ensures var k := RsaParts(e, n, d, p, q, iqmp);
      Rebuilt(RSA, [n, e, d, p, q, dmp1, dmq1, iqmp]) == Blobs(PublicBlob(k), PrivateBlob(k))
  {
    hide Emitted, SshString, SshStrings;
    var k := RsaParts(e, n, d, p, q, iqmp);
    var ints := [n, e, d, p, q, dmp1, dmq1, iqmp];
    var se, sn, sd, sp, sq, si := SshString(e), SshString(n), SshString(d), SshString(p), SshString(q), SshString(iqmp);
    var name := SshString(AlgName(RSA));
    assert ints == [n, e, d, p] + [q, dmp1, dmq1, iqmp];
    EmittedRsaPublic(n, e);
    assert [n, e] + [d] == [n, e, d] && [n, e, d] + [p] == [n, e, d, p];
    OneMore(RSA, [n, e], d);
    OneMore(RSA, [n, e, d], p);
    assert Emitted(RSA, [n, e, d, p]) == name + (se + sn) + sd + sp;
    EmittedRsaRest([n, e, d, p], q, dmp1, dmq1, iqmp);
    FourStrings(d, p, q, iqmp);
    TwoStrings(e, n);
    assert Emitted(RSA, ints) == (name + (se + sn)) + (sd + sp + sq + si);
    assert ints[..2] == [n, e];
  }

  lemma EmittedRsaPublic(n: seq<Byte>, e: seq<Byte>)
    ensures Emitted(RSA, [n, e]) == SshString(AlgName(RSA)) + (SshString(e) + SshString(n))
  {
    assert [] + [n] == [n] && [n] + [e] == [n, e];
    OneMore(RSA, [], n);
    OneMore(RSA, [n], e);
  }

  lemma EmittedRsaRest(four: seq<seq<Byte>>, q: seq<Byte>, dmp1: seq<Byte>, dmq1: seq<Byte>, iqmp: seq<Byte>)
    requires |four| == 4
    ensures Emitted(RSA, four + [q, dmp1, dmq1, iqmp]) == Emitted(RSA, four) + SshString(q) + SshString(iqmp)
  {
    hide Emitted, SshString;
    var five, six, seven := four + [q], four + [q, dmp1], four + [q, dmp1, dmq1];
    assert five + [dmp1] == six && six + [dmq1] == seven && seven + [iqmp] == four + [q, dmp1, dmq1, iqmp];
    OneMore(RSA, four, q);
    OneMore(RSA, five, dmp1);
    OneMore(RSA, six, dmq1);
    OneMore(RSA, seven, iqmp);
  }

  lemma EmittedDsa(ints: seq<seq<Byte>>, n: seq<Byte>)
    ensures Emitted(DSA, ints + [n]) == Emitted(DSA, ints) + SshString(n)
  {
    hide Emitted, SshString;
    OneMore(DSA, ints, n);
  }

  lemma RebuiltDsa(p: seq<Byte>, q: seq<Byte>, g: seq<Byte>, y: seq<Byte>, x: seq<Byte>)
    ensures var k := DsaParts(p, q, g, y, x);
      Rebuilt(DSA, [p, q, g, y, x]) == Blobs(PublicBlob(k), PrivateBlob(k))
  {
    hide Emitted, SshString, SshStrings;
    EmittedDsaPublic(p, q, g, y);
    EmittedDsa([p, q, g, y], x);
    assert [p, q, g, y] + [x] == [p, q, g, y, x] && [p, q, g, y, x][..4] == [p, q, g, y];
    OneString(x);
  }

  lemma EmittedDsaPublic(p: seq<Byte>, q: seq<Byte>, g: seq<Byte>, y: seq<Byte>)
    ensures Emitted(DSA, [p, q, g, y]) == SshString(AlgName(DSA)) + SshStrings([p, q, g, y])
  {
    hide Emitted, SshString, SshStrings;
    EmittedNothing(DSA);
    assert [] + [p] == [p] && [p] + [q] == [p, q] && [p, q] + [g] == [p, q, g] && [p, q, g] + [y] == [p, q, g, y];
    EmittedDsa([], p);
    EmittedDsa([p], q);
    EmittedDsa([p, q], g);
    EmittedDsa([p, q, g], y);
    FourStrings(p, q, g, y);
  }

  lemma OneString(x: seq<Byte>)
    ensures SshStrings([x]) == SshString(x)
  {
    assert [x][1..] == [];
  }

  /** Reading back what was written gives the blobs of the key, whatever follows it. */
  lemma PemRoundTrip(k: KeyParts, tail: seq<Byte>)
    requires Moduli(k) && Fits(Numbers(k))
    ensures ReadPem(PemBlob(Numbers(k)) + tail, TypeOf(k)) == Key(Blobs(PublicBlob(k), PrivateBlob(k)))
  {
    hide PemBlob, PemBody, Rebuilt, ReadPem, PublicBlob, PrivateBlob, SignedBytes, Remainder;
    ReadPemBack(Numbers(k), tail, TypeOf(k));
    match k
    case RsaParts(e, n, d, p, q, iqmp) =>
      var dmp1, dmq1 := SignedBytes(Remainder(d, p)), SignedBytes(Remainder(d, q));
      RebuiltRsa(e, n, d, p, q, dmp1, dmq1, iqmp);
      assert Numbers(k)[1..] == [n, e, d, p, q, dmp1, dmq1, iqmp];
    case DsaParts(p, q, g, y, x) =>
      RebuiltDsa(p, q, g, y, x);
      assert Numbers(k)[1..] == [p, q, g, y, x];
  }

  /** The same through any cipher that can be undone on whole blocks. */
  lemma PemRoundTripEncrypted(k: KeyParts, enc: seq<Byte> -> seq<Byte>, dec: seq<Byte> -> seq<Byte>)
    requires Moduli(k) && Fits(Numbers(k))
    requires forall x: seq<Byte> :: |x| % 8 == 0 ==> dec(enc(x)) == x
    ensures ReadPem(dec(enc(Padded(PemBlob(Numbers(k))))), TypeOf(k)) == Key(Blobs(PublicBlob(k), PrivateBlob(k)))
  {
    var blob := PemBlob(Numbers(k));
    var tail := Padded(blob)[|blob|..];
    assert Padded(blob) == blob + tail;
    PemRoundTrip(k, tail);
  }

  // ------------------------------------------------------------------
  // What is in the file

  /** The INTEGERs that make up all of `src`. */
  function AllIntegers(src: seq<Byte>): Option<seq<seq<Byte>>>
    decreases |src|
  {
    if src == [] then Some([])
    else
      match ReadInteger(src)
      case None => None
      case Some(p) =>
        match AllIntegers(p.rest)
        case None => None
        case Some(ints) => Some([p.value] + ints)
  }

  /** A SEQUENCE to the end of the file that consists of exactly these INTEGERs. */
  predicate HoldsIntegers(file: seq<Byte>, ints: seq<seq<Byte>>) {
    match ReadIdLen(file)
    case None => false
    case Some(h) => h.id == 16 && h.used + h.length == |file| && AllIntegers(file[h.used..]) == Some(ints)
  }

  /** An RSA key: the version, n, e, d, p, q, d mod (p-1), d mod (q-1) and the inverse of q, in this order. */
  lemma RsaFileHolds(e: seq<Byte>, n: seq<Byte>, d: seq<Byte>, p: seq<Byte>, q: seq<Byte>, iqmp: seq<Byte>)
    requires var k := RsaParts(e, n, d, p, q, iqmp); Moduli(k) && Fits(Numbers(k))
    ensures exists dmp1: seq<Byte>, dmq1: seq<Byte> ::
      && HoldsIntegers(PemBlob(Numbers(RsaParts(e, n, d, p, q, iqmp))), [[0], n, e, d, p, q, dmp1, dmq1, iqmp])
      && Value(dmp1) == Value(d) % (Value(p) - 1) && Positive(dmp1)
      && Value(dmq1) == Value(d) % (Value(q) - 1) && Positive(dmq1)
  {
    hide HoldsIntegers, PemBlob, Fits, SignedBytes;
    var dmp1, dmq1 := SignedBytes(Remainder(d, p)), SignedBytes(Remainder(d, q));
    SignedBytesMean(Remainder(d, p));
    SignedBytesMean(Remainder(d, q));
    FileHolds(Numbers(RsaParts(e, n, d, p, q, iqmp)));
  }

  /** A DSA key: the version, p, q, g, y and x. */
  lemma DsaFileHolds(p: seq<Byte>, q: seq<Byte>, g: seq<Byte>, y: seq<Byte>, x: seq<Byte>)
    requires Fits(Numbers(DsaParts(p, q, g, y, x)))
    ensures HoldsIntegers(PemBlob(Numbers(DsaParts(p, q, g, y, x))), [[0], p, q, g, y, x])
  {
    hide HoldsIntegers, PemBlob, Fits;
    FileHolds(Numbers(DsaParts(p, q, g, y, x)));
  }

  /** Not negative, and no longer than that takes. */
  predicate Positive(s: seq<Byte>) {
    s != [] && s[0] < 0x80 && (|s| > 1 && s[0] == 0 ==> s[1] >= 0x80)
  }

  lemma FileHolds(numbers: seq<seq<Byte>>)
    requires Fits(numbers)
    ensures HoldsIntegers(PemBlob(numbers), numbers)
  {
    hide ReadIdLen, AllIntegers, PemBody, BerHeader;
    var body := PemBody(numbers);
    var header := BerHeader(16, |body|, CONSTRUCTED);
    ReadShortId(16, |body|, CONSTRUCTED, body);
    assert (header + body)[|header|..] == body;
    AllIntegersBack(numbers);
  }

  lemma {:induction false} AllIntegersBack(numbers: seq<seq<Byte>>)
    requires Sizes(numbers)
    ensures AllIntegers(PemBody(numbers)) == Some(numbers)
  {
    hide Integer, ReadInteger;
    if numbers != [] {
      ReadIntegerBack(numbers[0], PemBody(numbers[1..]));
      AllIntegersBack(numbers[1..]);
      assert |PemBody(numbers)| > 0 && [numbers[0]] + numbers[1..] == numbers;
    }
  }

  // ------------------------------------------------------------------
  // The bytes of the headers

  /** The length in big-endian bytes, one byte if it is less than 128, otherwise as few as there can be. */
  lemma LengthIsDer(length: nat)
    requires length < 0x100_0000
    ensures length < 128 ==> LengthBytes(length) == [length]
    ensures length >= 128 ==>
      && LengthBytes(length)[0] == 0x80 + (|LengthBytes(length)| - 1)
      && Value(LengthBytes(length)[1..]) == length
      && |LengthBytes(length)| > 1 && LengthBytes(length)[1] != 0
  {
    if length >= 128 {
      FewDigits(length);
      var n := DigitCount(length, true, 1);
      LengthDigits(length, n);
      assert LengthBytes(length)[1..] == DigitBytes(length, true, n);
    }
  }

  lemma LengthDigits(length: nat, n: nat)
    requires length < 0x100_0000 && length > 0 && n == DigitCount(length, true, 1) && 1 <= n <= 3
    ensures Value(DigitBytes(length, true, n)) == length && DigitBytes(length, true, n)[0] != 0
  {
    hide Value;
    var s := DigitBytes(length, true, n);
    var a, b := length / 256, length / 256 / 256;
    assert Shifted(length, true, 0) == length && Shifted(length, true, 1) == a && Shifted(length, true, 2) == b;
    assert n > 1 <==> a > 0;
    assert n > 2 <==> b > 0;
    assert DigitBytes(length, true, 1) == [length % 256];
    assert DigitBytes(length, true, 2) == [a % 256] + DigitBytes(length, true, 1);
    assert DigitBytes(length, true, 3) == [b % 256] + DigitBytes(length, true, 2);
    ValueOfThree(s);
  }

  lemma ValueOfThree(s: seq<Byte>)
    requires 1 <= |s| <= 3
    ensures |s| == 1 ==> Value(s) == s[0]
    ensures |s| == 2 ==> Value(s) == 256 * (s[0] as int) + s[1]
    ensures |s| == 3 ==> Value(s) == 0x1_0000 * (s[0] as int) + 256 * (s[1] as int) + s[2]
  {
    assert Value(s[..0]) == 0;
    assert Value(s[..1]) == s[0];
    if |s| > 1 {
      assert s[..2][..1] == s[..1];
    }
  }

  /** A key file begins with the tag of a SEQUENCE, every INTEGER with its own. */
  lemma FileTags(numbers: seq<seq<Byte>>)
    requires Fits(numbers)
    ensures PemBlob(numbers) == [0x30] + LengthBytes(|PemBody(numbers)|) + PemBody(numbers)
    ensures forall n: seq<Byte> :: |n| < 0x100_0000 ==> Integer(n) == [0x02] + LengthBytes(|n|) + n
  {
    hide PemBody, LengthBytes;
  }

  // ------------------------------------------------------------------
  // What is accepted

  /** The data begin with these INTEGERs one after another. */
  predicate Begins(src: seq<Byte>, ints: seq<seq<Byte>>)
    decreases |ints|
  {
    ints == [] ||
    match ReadIdLen(src)
    case None => false
    case Some(h) =>
      && h.id == 2 && 0 <= h.length <= |src| - h.used
      && src[h.used..h.used + h.length] == ints[0] && Begins(src[h.used + h.length..], ints[1..])
  }

  /** A SEQUENCE inside the file that begins with the version 0 and then these INTEGERs; it may end anywhere. */
  predicate IsPemKey(file: seq<Byte>, ints: seq<seq<Byte>>) {
    match ReadIdLen(file)
    case None => false
    case Some(h) => h.id == 16 && 0 <= h.length <= |file| - h.used && Begins(file[h.used..], [[0]] + ints)
  }

  lemma BeginsOne(src: seq<Byte>, n: seq<Byte>, ints: seq<seq<Byte>>)
    ensures Begins(src, [n] + ints) <==>
      ReadInteger(src).Some? && ReadInteger(src).value.value == n && Begins(ReadInteger(src).value.rest, ints)
  {
    assert ([n] + ints)[1..] == ints;
  }

  lemma {:induction false} BeginsIff(src: seq<Byte>, n: nat, found: seq<seq<Byte>>, ints: seq<seq<Byte>>)
    requires |ints| == n
    ensures Begins(src, ints) <==> ReadIntegers(src, n, found) == Some(found + ints)
    decreases n
  {
    hide ReadInteger, Begins;
    if n == 0 {
      assert found + ints == found && Begins(src, []) by {
        BeginsNothing(src);
      }
    } else {
      assert ints == [ints[0]] + ints[1..];
      BeginsOne(src, ints[0], ints[1..]);
      if ReadInteger(src).Some? {
        var p := ReadInteger(src).value;
        ReadIntegersFound(p.rest, n - 1, found + [p.value]);
        if p.value == ints[0] {
          BeginsIff(p.rest, n - 1, found + [p.value], ints[1..]);
          assert found + [p.value] + ints[1..] == found + ints;
        } else {
          assert (found + ints)[..|found| + 1] == found + [ints[0]];
          assert (found + [ints[0]])[|found|] != (found + [p.value])[|found|];
        }
      }
    }
  }

  lemma BeginsNothing(src: seq<Byte>)
    ensures Begins(src, [])
  {
  }

  lemma {:induction false} ReadIntegersFound(src: seq<Byte>, n: nat, found: seq<seq<Byte>>)
    ensures var r := ReadIntegers(src, n, found); r.Some? ==> r.value[..|found|] == found
    decreases n
  {
    hide ReadInteger;
    if n > 0 && ReadInteger(src).Some? {
      var p := ReadInteger(src).value;
      ReadIntegersFound(p.rest, n - 1, found + [p.value]);
      var r := ReadIntegers(src, n, found);
      if r.Some? {
        assert r.value[..|found|] == r.value[..|found| + 1][..|found|];
      }
    }
  }

  /** An RSA key is accepted exactly if it has that form, with eight more integers; six of them make its blobs. */
  lemma RsaAcceptsIff(file: seq<Byte>, blobs: Blobs)
    ensures ReadPem(file, RSA) == Key(blobs) <==>
      exists n, e, d, p, q, dmp1, dmq1, iqmp ::
        && IsPemKey(file, [n, e, d, p, q, dmp1, dmq1, iqmp])
        && blobs == Blobs(PublicBlob(RsaParts(e, n, d, p, q, iqmp)), PrivateBlob(RsaParts(e, n, d, p, q, iqmp)))
  {
    hide IsPemKey, ReadPem, Rebuilt, PublicBlob, PrivateBlob;
    if ReadPem(file, RSA) == Key(blobs) {
      var ints := Accepted(file, RSA, blobs);
      var n, e, d, p, q, dmp1, dmq1, iqmp := ints[0], ints[1], ints[2], ints[3], ints[4], ints[5], ints[6], ints[7];
      assert ints == [n, e, d, p, q, dmp1, dmq1, iqmp];
      RebuiltRsa(e, n, d, p, q, dmp1, dmq1, iqmp);
      assert IsPemKey(file, [n, e, d, p, q, dmp1, dmq1, iqmp]);
    }
    forall n, e, d, p, q, dmp1, dmq1, iqmp | IsPemKey(file, [n, e, d, p, q, dmp1, dmq1, iqmp])
      ensures ReadPem(file, RSA)
        == Key(Blobs(PublicBlob(RsaParts(e, n, d, p, q, iqmp)), PrivateBlob(RsaParts(e, n, d, p, q, iqmp))))
    {
      RebuiltRsa(e, n, d, p, q, dmp1, dmq1, iqmp);
      IsAccepted(file, RSA, [n, e, d, p, q, dmp1, dmq1, iqmp]);
    }
  }

  /** A DSA key likewise, with five. */
  lemma DsaAcceptsIff(file: seq<Byte>, blobs: Blobs)
    ensures ReadPem(file, DSA) == Key(blobs) <==>
      exists p, q, g, y, x ::
        && IsPemKey(file, [p, q, g, y, x])
        && blobs == Blobs(PublicBlob(DsaParts(p, q, g, y, x)), PrivateBlob(DsaParts(p, q, g, y, x)))
  {
    hide IsPemKey, ReadPem, Rebuilt, PublicBlob, PrivateBlob;
    if ReadPem(file, DSA) == Key(blobs) {
      var ints := Accepted(file, DSA, blobs);
      var p, q, g, y, x := ints[0], ints[1], ints[2], ints[3], ints[4];
      assert ints == [p, q, g, y, x];
      RebuiltDsa(p, q, g, y, x);
      assert IsPemKey(file, [p, q, g, y, x]);
    }
    forall p, q, g, y, x | IsPemKey(file, [p, q, g, y, x])
      ensures ReadPem(file, DSA)
        == Key(Blobs(PublicBlob(DsaParts(p, q, g, y, x)), PrivateBlob(DsaParts(p, q, g, y, x))))
    {
      RebuiltDsa(p, q, g, y, x);
      IsAccepted(file, DSA, [p, q, g, y, x]);
    }
  }

  lemma Accepted(file: seq<Byte>, t: KeyType, blobs: Blobs) returns (ints: seq<seq<Byte>>)
    requires ReadPem(file, t) == Key(blobs)
    ensures |ints| == (if t == RSA then 8 else 5) && IsPemKey(file, ints) && blobs == Rebuilt(t, ints)
  {
    hide ReadInteger, Rebuilt, ReadIntegers, Begins;
    var inner := file[ReadIdLen(file).value.used..];
    var version := ReadInteger(inner).value;
    ints := ReadIntegers(version.rest, IntegerCount(t) - 1, []).value;
    BeginsIff(version.rest, IntegerCount(t) - 1, [], ints);
    assert [] + ints == ints;
    BeginsOne(inner, [0], ints);
  }

  lemma IsAccepted(file: seq<Byte>, t: KeyType, ints: seq<seq<Byte>>)
    requires |ints| == (if t == RSA then 8 else 5) && IsPemKey(file, ints)
    ensures ReadPem(file, t) == Key(Rebuilt(t, ints))
  {
    hide ReadInteger, Rebuilt, ReadIntegers, Begins;
    var inner := file[ReadIdLen(file).value.used..];
    BeginsOne(inner, [0], ints);
    BeginsIff(ReadInteger(inner).value.rest, |ints|, [], ints);
    assert [] + ints == ints;
  }

  /** The version is what decides between the two errors. */
  lemma VersionMismatchIff(file: seq<Byte>, t: KeyType)
    ensures ReadPem(file, t) == VersionMismatch <==>
      match ReadIdLen(file)
      case None => false
      case Some(h) =>
        && h.id == 16 && 0 <= h.length <= |file| - h.used
        && exists version :: version != [0] && Begins(file[h.used..], [version])
  {
    hide ReadInteger, Rebuilt, ReadIntegers, Begins;
    if ReadIdLen(file).Some? && 0 <= ReadIdLen(file).value.length <= |file| - ReadIdLen(file).value.used {
      var inner := file[ReadIdLen(file).value.used..];
      forall version
        ensures Begins(inner, [version]) <==> ReadInteger(inner).Some? && ReadInteger(inner).value.value == version
      {
        BeginsOne(inner, version, []);
        assert [version] + [] == [version];
        if ReadInteger(inner).Some? {
          BeginsNothing(ReadInteger(inner).value.rest);
        }
      }
      if ReadInteger(inner).Some? && ReadInteger(inner).value.value != [0] {
        assert Begins(inner, [ReadInteger(inner).value.value]);
      }
    }
  }
}
