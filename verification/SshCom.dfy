/** The ssh.com keys. */
module SshCom {
  import opened Bytes
  import opened SshWire
  import opened KeyBlobs
  import opened Bignum

  // ssh.com private keys: integers counted in bits instead of bytes, in another order than in the
  // blobs, wrapped twice and possibly enciphered.

  // ------------------------------------------------------------------
  // Bit-counted integers

  /** Without leading zero bytes, but never shorter than one byte if there was one. */
  function Strip(s: seq<Byte>): (r: seq<Byte>)
    ensures |r| <= |s| && (s != [] ==> r != [])
  {
    if |s| > 1 && s[0] == 0 then Strip(s[1..]) else s
  }

  lemma {:induction false} ValueLeadingZero(s: seq<Byte>)
    requires s != [] && s[0] == 0
    ensures Value(s) == Value(s[1..])
  {
    if |s| > 1 {
      ValueLeadingZero(s[..|s| - 1]);
      assert s[..|s| - 1][1..] == s[1..][..|s| - 2];
    }
  }

  lemma {:induction false} StripKeepsValue(s: seq<Byte>)
    ensures Value(Strip(s)) == Value(s)
  {
    if |s| > 1 && s[0] == 0 {
      ValueLeadingZero(s);
      StripKeepsValue(s[1..]);
    }
  }

  lemma PowersToByte()
    ensures Pow2(0) == 1 && Pow2(1) == 2 && Pow2(2) == 4 && Pow2(3) == 8 && Pow2(4) == 16
    ensures Pow2(5) == 32 && Pow2(6) == 64 && Pow2(7) == 128 && Pow2(8) == 256
  {
    assert Pow2(3) == 8;
    assert Pow2(6) == 64;
  }

  /** The number of bits of a byte, counting at least one. */
  function BitLength(b: nat): (n: nat)
    ensures n >= 1
  {
    if b < 2 then 1 else 1 + BitLength(b / 2)
  }

  lemma {:induction false} BitLengthBetween(b: nat, k: nat)
    requires k > 0 ==> Pow2(k) <= b
    requires b < Pow2(k + 1)
    ensures BitLength(b) == k + 1
  {
    if k > 0 {
      assert Pow2(k) == 2 * Pow2(k - 1);
      assert k - 1 > 0 ==> Pow2(k - 1) <= b / 2;
      BitLengthBetween(b / 2, k - 1);
    }
  }

  /** The bit count stored for an integer that has been stripped. */
  function BitCount(s: seq<Byte>): nat {
    if s == [] then 0 else 8 * (|s| - 1) + BitLength(s[0])
  }

  function SshcomMpint(s: seq<Byte>): (r: seq<Byte>)
    ensures |r| == 4 + |Strip(s)|
  {
    Put32(BitCount(Strip(s))) + Strip(s)
  }

  /** The stored bit count makes up exactly the stored bytes. */
  lemma BitCountMatchesBytes(s: seq<Byte>)
    ensures (BitCount(s) + 7) / 8 == |s|
  {
    if s != [] {
      BitLengthOfByte(s[0]);
    }
  }

  lemma BitLengthOfByte(b: Byte)
    ensures BitLength(b) <= 8
  {
    PowersToByte();
    var k := if b < 2 then 0 else if b < 4 then 1 else if b < 8 then 2 else if b < 16 then 3
             else if b < 32 then 4 else if b < 64 then 5 else if b < 128 then 6 else 7;
    BitLengthBetween(b, k);
  }

  /** `b & (1 << k)` */
  predicate BitSet(b: nat, k: nat) {
    if k == 0 then b % 2 == 1 else BitSet(b / 2, k - 1)
  }

  lemma {:induction false} TopBit(b: nat, k: nat)
    requires b < Pow2(k + 1)
    ensures BitSet(b, k) <==> Pow2(k) <= b
  {
    if k > 0 {
      assert Pow2(k + 1) == 2 * Pow2(k) && Pow2(k) == 2 * Pow2(k - 1);
      TopBit(b / 2, k - 1);
    }
  }

  /**
   Scans for the highest bit set, giving up at the lowest.  The bit number and the number of bytes left stay
   in step.
   */
  method FindTopBit(data: seq<Byte>) returns (i: nat, bits: int)
    ensures i <= |data| && data[i..] == Strip(data)
    ensures bits + 1 == BitCount(Strip(data))
  {
    i, bits := 0, |data| * 8 - 1;
    PowersToByte();
    while bits > 0
      invariant data == [] ==> i == 0 && bits == -1
      invariant data != [] ==> i < |data| && bits >= 0 && |data| - i == bits / 8 + 1
      invariant data != [] ==> data[i] < Pow2(bits % 8 + 1)
      invariant data == [] || Strip(data) == Strip(data[i..])
    {
      TopBit(data[i], bits % 8);
      if BitSet(data[i], bits % 8) {
        break;
      }
      if bits % 8 == 0 {
        assert data[i..][1..] == data[i + 1..];
        i := i + 1;
      }
      bits := bits - 1;
    }
    if data != [] {
      assert data[i..][0] == data[i];
      if bits == 0 {
        assert |data[i..]| == 1;
      } else {
        TopBit(data[i], bits % 8);
      }
      assert Strip(data[i..]) == data[i..];
      BitLengthBetween(data[i], bits % 8);
    }
  }

  method SshcomPutMpint(target: array<Byte>, pos: nat, data: seq<Byte>) returns (end: nat)
    requires pos + 4 + |data| <= target.Length
    modifies target
    ensures end == pos + |SshcomMpint(data)| <= target.Length
    ensures target[..end] == old(target[..pos]) + SshcomMpint(data)
  {
    ghost var lead := target[..pos];
    var i, bits := FindTopBit(data);
    var body := Append(target, pos, Put32(bits + 1));
    end := Append(target, body, data[i..]);
    ConcatAssoc(lead, Put32(bits + 1), data[i..]);
  }

  function ReadSshcomMpint(data: seq<Byte>): (r: Option<Parsed<seq<Byte>>>)
  {
    if |data| < 4 then None
    else
      var bytes := ToU32(Get32(data) + 7) / 8;
      if |data| < 4 + bytes then None else Some(Parsed(data[4..4 + bytes], data[4 + bytes..]))
  }

  /** As for the other readers; after a failure everything is skipped, so that later reads fail as well. */
  method SshcomReadMpint(data: seq<Byte>, pos: nat) returns (ok: bool, number: seq<Byte>, end: nat)
    requires pos <= |data|
    ensures match ReadSshcomMpint(data[pos..])
      case None => !ok && end == |data|
      case Some(p) => ok && number == p.value && end <= |data| && data[end..] == p.rest
  {
    if |data| - pos < 4 {
      return false, [], |data|;
    }
    var bits := Get32(data[pos..]);
    var bytes := ToU32(bits + 7) / 8;
    if |data| - pos < 4 + bytes {
      return false, [], |data|;
    }
    return true, data[pos..][4..4 + bytes], pos + 4 + bytes;
  }

  lemma ReadSshcomMpintIs(data: seq<Byte>, bits: nat, t: seq<Byte>, rest: seq<Byte>)
    requires |data| >= 4 + |t| && Get32(data) == bits && bits < 0xffff_fff0 && (bits + 7) / 8 == |t|
    requires data[4..4 + |t|] == t && data[4 + |t|..] == rest
    ensures ReadSshcomMpint(data) == Some(Parsed(t, rest))
  {
    SmallWord(bits);
  }

  /** A word in front of some bytes: where everything is. */
  lemma WordAndBytes(n: nat, t: seq<Byte>, rest: seq<Byte>)
    requires n < 0xffff_fff0
    ensures var data := Put32(n) + t + rest;
      Get32(data) == n && data[4..4 + |t|] == t && data[4 + |t|..] == rest
  {
    hide Put32, Get32;
    Get32Put32(n, t + rest);
    assert Put32(n) + t + rest == Put32(n) + (t + rest);
  }

  lemma ReadSshcomMpintBack(s: seq<Byte>, rest: seq<Byte>)
    requires |s| < 0x1000_0000
    ensures ReadSshcomMpint(SshcomMpint(s) + rest) == Some(Parsed(Strip(s), rest))
  {
    hide Put32, Strip, BitCount, Get32, ToU32, ReadSshcomMpint;
    var t, n := Strip(s), BitCount(Strip(s));
    BitCountMatchesBytes(t);
    WordAndBytes(n, t, rest);
    ReadSshcomMpintIs(Put32(n) + t + rest, n, t, rest);
  }

  lemma SmallWord(n: nat)
    requires n < 0xffff_fff0
    ensures ToU32(n) == n && ToU32(n + 7) == n + 7
  {
  }

  /** A positive integer as RFC 4251 wants it: no superfluous zero byte in front, and not negative. */
  predicate Canonical(s: seq<Byte>) {
    s != [] && s[0] < 0x80 && (s[0] != 0 || (|s| > 1 && s[1] >= 0x80))
  }

  /** What `put_mp` makes of a stripped integer is the integer in its canonical form, and only of these. */
  lemma StrippedMpintIff(s: seq<Byte>)
    requires s != []
    ensures SshMpint(Strip(s)) == SshString(s) <==> Canonical(s) || s == [0]
  {
    if Canonical(s) {
      if s[0] == 0 {
        assert Strip(s) == s[1..] && [0] + s[1..] == s;
      }
    } else if s != [0] {
      var t := Strip(s);
      var u := if t[0] >= 0x80 then [0] + t else t;
      assert SshMpint(t) == SshString(u);
      if s[0] == 0 {
        StripDropsTwo(s);
      }
      assert u != s;
      assert SshString(u)[4..] == u;
      assert SshString(s)[4..] == s;
    }
  }

  /** A non-canonical integer that begins with zero loses it for good. */
  lemma StripDropsTwo(s: seq<Byte>)
    requires |s| > 1 && s[0] == 0 && s[1] < 0x80
    ensures Strip(s)[0] >= 0x80 ==> |Strip(s)| + 1 < |s|
    ensures |Strip(s)| < |s|
  {
    assert Strip(s) == Strip(s[1..]);
    assert s[1..][0] == s[1];
  }

  // ------------------------------------------------------------------
  // The file

  const MAGIC: nat := 0x3f6ff9eb

  function TypeName(t: KeyType): seq<Byte> {
    if t == RSA then Ascii("if-modn{sign{rsa" + "-pkcs1-sha1},encrypt{rsa-pkcs1v2-oaep}}")
    else Ascii("dl-modp{sign{dsa" + "-nist-sha1},dh{plain}}")
  }

  function TypePrefix(t: KeyType): (r: seq<Byte>)
    ensures |r| == 16
  {
    if t == RSA then Ascii("if-modn{sign{rsa") else Ascii("dl-modp{sign{dsa")
  }

  function CipherName(encrypted: bool): seq<Byte> {
    if encrypted then Ascii("3des-cbc") else Ascii("none")
  }

  /** The integers in the order of the file. */
  function Numbers(k: KeyParts): seq<seq<Byte>> {
    match k
    case RsaParts(e, n, d, p, q, iqmp) => [e, d, n, iqmp, q, p]
    case DsaParts(p, q, g, y, x) => [p, g, q, y, x]
  }

  function SshcomMpints(numbers: seq<seq<Byte>>): seq<Byte> {
    if numbers == [] then [] else SshcomMpints(numbers[..|numbers| - 1]) + SshcomMpint(numbers[|numbers| - 1])
  }

  /** Only DSA has a word in front of its integers. */
  function Lead(t: KeyType): seq<Byte> {
    if t == DSA then Put32(0) else []
  }

  function Payload(k: KeyParts): seq<Byte> {
    Lead(TypeOf(k)) + SshcomMpints(Numbers(k))
  }

  /** The random bytes that fill the last block. */
  predicate Fills(pad: seq<Byte>, len: nat) {
    |pad| < 8 && (len + |pad|) % 8 == 0
  }

  /** What is enciphered: the payload with its length, and when enciphering the filling. */
  function Section(k: KeyParts, pad: seq<Byte>): seq<Byte> {
    SshString(Payload(k)) + pad
  }

  function Names(t: KeyType, encrypted: bool): (r: seq<Byte>)
    ensures |r| <= 100
  {
    SshString(TypeName(t)) + SshString(CipherName(encrypted))
  }

  function Head(t: KeyType, encrypted: bool, total: nat): (r: seq<Byte>)
    ensures 8 <= |r| <= 108
  {
    Put32(MAGIC) + Put32(total) + Names(t, encrypted)
  }

  type Cipher = seq<Byte> -> seq<Byte>

  function File(k: KeyParts, cipher: Option<Cipher>, pad: seq<Byte>): seq<Byte> {
    var section := match cipher case None => Section(k, []) case Some(enc) => enc(Section(k, pad));
    var total := |Head(TypeOf(k), cipher.Some?, 0)| + 4 + |section|;
    Head(TypeOf(k), cipher.Some?, total) + SshString(section)
  }

  // ------------------------------------------------------------------
  // The writer

  predicate SmallFields(k: KeyParts) {
    && (forall i :: 0 <= i < |PublicFields(k)| ==> |PublicFields(k)[i]| < 0x1000_0000)
    && (forall i :: 0 <= i < |PrivateFields(k)| ==> |PrivateFields(k)[i]| < 0x1000_0000)
  }

  method CollectNumbers(t: KeyType, pubblob: seq<Byte>, privblob: seq<Byte>, ghost k: KeyParts)
    returns (numbers: seq<seq<Byte>>)
    requires t == TypeOf(k) && pubblob == PublicBlob(k) && privblob == PrivateBlob(k) && SmallFields(k)
    ensures numbers == Numbers(k)
  {
    hide SshStrings, SshString, Get32;
    SkipName(k);
    var pos := 4 + Get32(pubblob);
    assert privblob[0..] == privblob;
    if t == RSA {
      var pub := ReadFields(pubblob, pos, 2, PublicFields(k));
      var priv := ReadFields(privblob, 0, 4, PrivateFields(k));
      numbers := [pub[0], priv[0], pub[1], priv[3], priv[2], priv[1]];
    } else {
      var pub := ReadFields(pubblob, pos, 4, PublicFields(k));
      var priv := ReadFields(privblob, 0, 1, PrivateFields(k));
      numbers := [pub[0], pub[2], pub[1], pub[3], priv[0]];
    }
  }

  /** The room the writer sets aside for the integers. */
  function Room(numbers: seq<seq<Byte>>): nat {
    if numbers == [] then 0 else Room(numbers[..|numbers| - 1]) + 4 + |numbers[|numbers| - 1]|
  }

  lemma {:induction false} RoomSuffices(numbers: seq<seq<Byte>>)
    ensures |SshcomMpints(numbers)| <= Room(numbers)
  {
    if numbers != [] {
      RoomSuffices(numbers[..|numbers| - 1]);
    }
  }

  lemma {:induction false} RoomGrows(numbers: seq<seq<Byte>>, i: nat)
    requires i < |numbers|
    ensures Room(numbers[..i]) + 4 + |numbers[i]| == Room(numbers[..i + 1]) <= Room(numbers)
    ensures SshcomMpints(numbers[..i + 1]) == SshcomMpints(numbers[..i]) + SshcomMpint(numbers[i])
  {
    assert numbers[..i + 1][..i] == numbers[..i];
    RoomMonotone(numbers, i + 1);
  }

  lemma {:induction false} RoomMonotone(numbers: seq<seq<Byte>>, i: nat)
    requires i <= |numbers|
    ensures Room(numbers[..i]) <= Room(numbers)
    decreases |numbers| - i
  {
    if i == |numbers| {
      assert numbers[..i] == numbers;
    } else {
      assert numbers[..i + 1][..i] == numbers[..i];
      RoomMonotone(numbers, i + 1);
    }
  }

  method SizeOfBlob(numbers: seq<seq<Byte>>) returns (outlen: nat)
    ensures outlen == 512 + Room(numbers)
  {
    outlen := 512;
    var i := 0;
    while i < |numbers|
      invariant 0 <= i <= |numbers| && outlen == 512 + Room(numbers[..i])
    {
      RoomGrows(numbers, i);
      outlen := outlen + 4 + |numbers[i]|;
      i := i + 1;
    }
    assert numbers[..i] == numbers;
  }

  method PutNumbers(outblob: array<Byte>, start: nat, numbers: seq<seq<Byte>>) returns (pos: nat)
    requires start + Room(numbers) <= outblob.Length
    modifies outblob
    ensures pos == start + |SshcomMpints(numbers)| <= start + Room(numbers)
    ensures outblob[..pos] == old(outblob[..start]) + SshcomMpints(numbers)
  {
    hide SshcomMpint;
    RoomMonotone(numbers, 0);
    pos := start;
    ghost var lead := outblob[..start];
    var i := 0;
    while i < |numbers|
      invariant 0 <= i <= |numbers|
      invariant pos == start + |SshcomMpints(numbers[..i])| <= start + Room(numbers[..i]) <= outblob.Length
      invariant outblob[..pos] == lead + SshcomMpints(numbers[..i])
    {
      RoomGrows(numbers, i);
      RoomSuffices(numbers[..i + 1]);
      ConcatAssoc(lead, SshcomMpints(numbers[..i]), SshcomMpint(numbers[i]));
      pos := SshcomPutMpint(outblob, pos, numbers[i]);
      i := i + 1;
    }
    assert numbers[..i] == numbers;
    RoomSuffices(numbers);
  }

  method PutHead(outblob: array<Byte>, t: KeyType, encrypted: bool) returns (pos: nat)
    requires outblob.Length >= 512
    modifies outblob
    ensures pos == |Head(t, encrypted, 0)|
    ensures outblob[..pos] == Head(t, encrypted, 0)
  {
    hide Put32, SshString, Names, TypeName, CipherName;
    NamesAfter(Put32(MAGIC) + Put32(0), t, encrypted);
    pos := Append(outblob, 0, Put32(MAGIC));
    pos := Append(outblob, pos, Put32(0));
    pos := PutString(outblob, pos, TypeName(t));
    pos := PutString(outblob, pos, CipherName(encrypted));
  }

  lemma NamesAfter(lead: seq<Byte>, t: KeyType, encrypted: bool)
    ensures |TypeName(t)| + |CipherName(encrypted)| <= 92
    ensures lead + SshString(TypeName(t)) + SshString(CipherName(encrypted)) == lead + Names(t, encrypted)
  {
    hide SshString;
  }

  /** Random filling up to a whole number of blocks. */
  method PutFilling(outblob: array<Byte>, start: nat, pad: seq<Byte>) returns (pos: nat)
    requires start + |pad| <= outblob.Length
    modifies outblob
    ensures pos == start + |pad| && outblob[..pos] == old(outblob[..start]) + pad
  {
    pos := Append(outblob, start, pad);
  }

  /**
   The whole of the writer, up to the file.  Two length fields are skipped and filled in
   later, the total length last.
   */
  method SshcomWrite(t: KeyType, pubblob: seq<Byte>, privblob: seq<Byte>, cipher: Option<Cipher>, pad: seq<Byte>,
                     ghost k: KeyParts)
    returns (file: seq<Byte>)
    requires t == TypeOf(k) && pubblob == PublicBlob(k) && privblob == PrivateBlob(k) && SmallFields(k)
    requires if cipher.Some? then Fills(pad, 4 + |Payload(k)|) else pad == []
    requires cipher.Some? ==> |cipher.value(Section(k, pad))| == |Section(k, pad)|
    ensures file == File(k, cipher, pad)
  {
    hide SshcomMpints, Room, Head, Put32, Section, Payload;
    var numbers := CollectNumbers(t, pubblob, privblob, k);
    var outlen := SizeOfBlob(numbers);
    var outblob := new Byte[outlen];
    var lenpos := PutHead(outblob, t, cipher.Some?);
    ghost var skipped := outblob[lenpos..lenpos + 4];
    assert outblob[..lenpos + 4] == Head(t, cipher.Some?, 0) + skipped;
    var pos := PutSection(outblob, lenpos + 4, t, numbers, pad, k);
    assert pos < outlen;
    Wrap(outblob, lenpos, pos, t, cipher, skipped, Section(k, pad));
    file := outblob[..pos];
  }

  /** The payload with its length in front, which is filled in when it is known, and the filling. */
  method PutSection(outblob: array<Byte>, start: nat, t: KeyType, numbers: seq<seq<Byte>>, pad: seq<Byte>,
                    ghost k: KeyParts)
    returns (pos: nat)
    requires t == TypeOf(k) && numbers == Numbers(k) && |pad| < 8
    requires start + 16 + Room(numbers) <= outblob.Length
    modifies outblob
    ensures pos == start + |Section(k, pad)| < start + 16 + Room(numbers)
    ensures outblob[..pos] == old(outblob[..start]) + Section(k, pad)
  {
    hide SshcomMpints, Room, Put32, Overlaid, SshString;
    ghost var lead, skipped := outblob[..start], outblob[start..start + 4];
    assert outblob[..start + 4] == lead + skipped;
    pos := Append(outblob, start + 4, Lead(t));
    pos := PutNumbers(outblob, pos, numbers);
    ConcatAssoc(lead + skipped, Lead(t), SshcomMpints(numbers));
    var payloadEnd := pos;
    pos := PutFilling(outblob, pos, pad);
    ConcatAssoc(lead + skipped, Payload(k), pad);
    Overlay(outblob, start, Put32(payloadEnd - (start + 4)), pos);
    OverlaidPart(lead, skipped, Payload(k) + pad, Put32(|Payload(k)|));
    SectionParts(lead, k, pad);
  }

  lemma SectionParts(lead: seq<Byte>, k: KeyParts, pad: seq<Byte>)
    ensures lead + Put32(|Payload(k)|) + (Payload(k) + pad) == lead + Section(k, pad)
  {
    hide Payload, Put32;
  }

  /** The length of the enciphered part, the total length, and the cipher itself. */
  method Wrap(outblob: array<Byte>, lenpos: nat, pos: nat, t: KeyType, cipher: Option<Cipher>,
              ghost skipped: seq<Byte>, ghost section: seq<Byte>)
    requires lenpos + 4 <= pos <= outblob.Length && pos == lenpos + 4 + |section|
    requires |Head(t, cipher.Some?, 0)| == lenpos && |skipped| == 4
    requires outblob[..pos] == Head(t, cipher.Some?, 0) + skipped + section
    requires cipher.Some? ==> |cipher.value(section)| == |section|
    modifies outblob
    ensures outblob[..pos] == Head(t, cipher.Some?, pos)
      + SshString(match cipher case None => section case Some(enc) => enc(section))
  {
    hide Put32, Head, Overlaid, SshString;
    OverlaidPart(Head(t, cipher.Some?, 0), skipped, section, Put32(|section|));
    Overlay(outblob, lenpos, Put32(pos - (lenpos + 4)), pos);
    HeadTotal(t, cipher.Some?, pos, Put32(|section|) + section);
    ConcatAssoc(Head(t, cipher.Some?, 0), Put32(|section|), section);
    Overlay(outblob, 4, Put32(pos), pos);
    Encipher(outblob, lenpos, pos, cipher, Head(t, cipher.Some?, pos), section);
  }

  lemma HeadTotal(t: KeyType, encrypted: bool, total: nat, rest: seq<Byte>)
    ensures |Head(t, encrypted, total)| == |Head(t, encrypted, 0)|
    ensures Overlaid(Head(t, encrypted, 0) + rest, 4, Put32(total)) == Head(t, encrypted, total) + rest
  {
    hide Put32, Names, Overlaid;
    var names := Names(t, encrypted);
    OverlaidPart(Put32(MAGIC), Put32(0), names + rest, Put32(total));
    assert Head(t, encrypted, 0) + rest == Put32(MAGIC) + Put32(0) + (names + rest);
    assert Head(t, encrypted, total) + rest == Put32(MAGIC) + Put32(total) + (names + rest);
  }

  method Encipher(outblob: array<Byte>, lenpos: nat, pos: nat, cipher: Option<Cipher>,
                  ghost head: seq<Byte>, ghost section: seq<Byte>)
    requires lenpos + 4 <= pos <= outblob.Length && |head| == lenpos && pos == lenpos + 4 + |section|
    requires outblob[..pos] == head + (Put32(|section|) + section)
    requires cipher.Some? ==> |cipher.value(section)| == |section|
    modifies outblob
    ensures outblob[..pos] == head + SshString(match cipher case None => section case Some(enc) => enc(section))
  {
    hide Put32, Overlaid, SshString;
    ghost var front := head + Put32(|section|);
    ConcatAssoc(head, Put32(|section|), section);
    if cipher.Some? {
      assert outblob[lenpos + 4..pos] == (front + section)[lenpos + 4..] == section;
      var text := cipher.value(outblob[lenpos + 4..pos]);
      LastOverlaid(front, section, text);
      Overlay(outblob, lenpos + 4, text, pos);
      StringField(head, text);
    } else {
      StringField(head, section);
    }
  }

  // ------------------------------------------------------------------
  // The reader

  datatype Error =
    | BadMagic | NoKeyType | UnknownKeyType | NoCipher | UnknownCipher | NoKeyData | EmptyKeyData
    | NotWholeBlocks | IllFormed | Predefined | MissingIntegers

  type Result<+T> = Outcome<T, Error>

  /** A string whose length, taken as signed, is not negative. */
  function NextString(data: seq<Byte>, error: Error): Result<Parsed<seq<Byte>>> {
    match ReadString(data)
    case None => Failure(error)
    case Some(p) => if |p.value| >= 0x8000_0000 then Failure(error) else Success(p)
  }

  function KeyTypeOf(name: seq<Byte>): Result<KeyType> {
    if |name| > 16 && name[..16] == TypePrefix(RSA) then Success(RSA)
    else if |name| > 16 && name[..16] == TypePrefix(DSA) then Success(DSA)
    else Failure(UnknownKeyType)
  }

  /** The key type, whether it is enciphered, and the enciphered part. */
  function ReadOuter(blob: seq<Byte>): Result<(KeyType, bool, seq<Byte>)> {
    var _ :- Check(|blob| >= 4 && Get32(blob) == MAGIC, BadMagic);
    var _ :- Check(|blob| >= 8, NoKeyType);
    var name :- NextString(blob[8..], NoKeyType);
    var t :- KeyTypeOf(name.value);
    var cipher :- NextString(name.rest, NoCipher);
    var _ :- Check(cipher.value == CipherName(false) || cipher.value == CipherName(true), UnknownCipher);
    var data :- NextString(cipher.rest, NoKeyData);
    var _ :- Check(data.value != [], EmptyKeyData);
    Success((t, cipher.value == CipherName(true), data.value))
  }

  /** The containing string is stripped off; what follows it is filling. */
  function Contents(section: seq<Byte>): Result<seq<Byte>> {
    var p :- NextString(section, IllFormed);
    Success(p.value)
  }

  function ReadSshcomMpints(data: seq<Byte>, n: nat, found: seq<seq<Byte>>): (r: Result<seq<seq<Byte>>>)
    ensures r.Success? ==> |r.value| == |found| + n
  {
    if n == 0 then Success(found)
    else
      match ReadSshcomMpint(data)
      case None => Failure(MissingIntegers)
      case Some(p) => ReadSshcomMpints(p.rest, n - 1, found + [p.value])
  }

  function Count(t: KeyType): nat {
    if t == RSA then 6 else 5
  }

  /** The blobs rebuilt from the integers of the file; for RSA one of them is not made positive again. */
  function Rebuilt(t: KeyType, f: seq<seq<Byte>>): Blobs
    requires |f| == Count(t)
  {
    if t == RSA then
      Blobs(SshString(AlgName(RSA)) + SshMpint(f[0]) + SshMpint(f[2]),
            SshString(f[1]) + SshMpint(f[5]) + SshMpint(f[4]) + SshMpint(f[3]))
    else
      Blobs(SshString(AlgName(DSA)) + SshMpint(f[0]) + SshMpint(f[2]) + SshMpint(f[1]) + SshMpint(f[3]),
            SshMpint(f[4]))
  }

  function ReadContents(t: KeyType, contents: seq<Byte>): Result<Blobs> {
    var numbers :- ReadNumbers(t, contents);
    Success(Rebuilt(t, numbers))
  }

  function ReadNumbers(t: KeyType, contents: seq<Byte>): (r: Result<seq<seq<Byte>>>)
    ensures r.Success? ==> |r.value| == Count(t)
  {
    if t == RSA then ReadSshcomMpints(contents, 6, [])
    else if |contents| < 4 then Failure(MissingIntegers)
    else if Get32(contents) != 0 then Failure(Predefined)
    else ReadSshcomMpints(contents[4..], 5, [])
  }

  function Read(blob: seq<Byte>, dec: Cipher): Result<Blobs> {
    var outer :- ReadOuter(blob);
    var _ :- Check(!outer.1 || |outer.2| % 8 == 0, NotWholeBlocks);
    var contents :- Contents(if outer.1 then dec(outer.2) else outer.2);
    ReadContents(outer.0, contents)
  }

  /** One of the three strings of the outer structure. */
  method TakeString(blob: seq<Byte>, pos: nat) returns (ok: bool, s: seq<Byte>, end: nat)
    requires pos <= |blob|
    ensures match ReadString(blob[pos..])
      case None => !ok
      case Some(p) =>
        if |p.value| >= 0x8000_0000 then !ok else ok && s == p.value && end <= |blob| && blob[end..] == p.rest
  {
    ok, s, end := false, [], pos;
    if |blob| < pos + 4 {
      return;
    }
    var len := ToInt(Get32(blob[pos..]));
    if len < 0 || len > |blob| - pos - 4 {
      return;
    }
    return true, blob[pos..][4..4 + len], pos + 4 + len;
  }

  method SshcomReadOuter(blob: seq<Byte>) returns (r: Result<(KeyType, bool, seq<Byte>)>)
    ensures r == ReadOuter(blob)
  {
    hide ReadString, Get32, CipherName;
    if |blob| < 4 || Get32(blob) != MAGIC {
      return Failure(BadMagic);
    }
    if |blob| < 8 {
      return Failure(NoKeyType);
    }
    var ok, name, pos := TakeString(blob, 8);
    if !ok {
      return Failure(NoKeyType);
    }
    var t := RSA;
    if |name| > 16 && name[..16] == TypePrefix(RSA) {
      t := RSA;
    } else if |name| > 16 && name[..16] == TypePrefix(DSA) {
      t := DSA;
    } else {
      return Failure(UnknownKeyType);
    }
    var ok', cipher, pos' := TakeString(blob, pos);
    if !ok' {
      return Failure(NoCipher);
    }
    if cipher != CipherName(false) && cipher != CipherName(true) {
      return Failure(UnknownCipher);
    }
    var ok'', data, _ := TakeString(blob, pos');
    if !ok'' {
      return Failure(NoKeyData);
    }
    if data == [] {
      return Failure(EmptyKeyData);
    }
    return Success((t, cipher == CipherName(true), data));
  }

  /** Reads the integers one after another; only the last one is tested. */
  method TakeMpints(data: seq<Byte>, start: nat, n: nat) returns (ok: bool, numbers: seq<seq<Byte>>)
    requires start <= |data| && n > 0
    ensures match ReadSshcomMpints(data[start..], n, [])
      case Failure(_) => !ok
      case Success(f) => ok && numbers == f
  {
    hide ReadSshcomMpint;
    ok, numbers := true, [];
    var pos: nat, i: nat := start, 0;
    ghost var failed := false;
    while i < n
      invariant i <= n && |numbers| == i && pos <= |data|
      invariant failed ==> pos == |data| && ReadSshcomMpints(data[start..], n, []).Failure?
      invariant !failed ==> ReadSshcomMpints(data[pos..], n - i, numbers) == ReadSshcomMpints(data[start..], n, [])
      invariant i > 0 ==> ok == !failed
    {
      if failed {
        NothingToRead(data, pos);
      }
      var number: seq<Byte>;
      ok, number, pos := SshcomReadMpint(data, pos);
      numbers := numbers + [number];
      failed := failed || !ok;
      i := i + 1;
    }
  }

  lemma NothingToRead(data: seq<Byte>, pos: nat)
    requires pos == |data|
    ensures ReadSshcomMpint(data[pos..]) == None
  {
  }

  method SshcomReadContents(t: KeyType, contents: seq<Byte>) returns (r: Result<Blobs>)
    ensures r == ReadContents(t, contents)
  {
    hide ReadSshcomMpints, Rebuilt, Get32;
    assert contents[0..] == contents;
    if t == RSA {
      var ok, f := TakeMpints(contents, 0, 6);
      if !ok {
        ReadMpintsError(contents, 6, []);
        return Failure(MissingIntegers);
      }
      FoundWithinData(contents, 6, []);
      var blobs := RebuildRsa(f, |contents|);
      return Success(blobs);
    }
    if |contents| < 4 {
      return Failure(MissingIntegers);
    }
    if Get32(contents) != 0 {
      return Failure(Predefined);
    }
    var ok, f := TakeMpints(contents, 4, 5);
    if !ok {
      ReadMpintsError(contents[4..], 5, []);
      return Failure(MissingIntegers);
    }
    FoundWithinData(contents[4..], 5, []);
    var blobs := RebuildDsa(f, |contents|);
    return Success(blobs);
  }

  lemma {:induction false} ReadMpintsError(data: seq<Byte>, n: nat, found: seq<seq<Byte>>)
    ensures var r := ReadSshcomMpints(data, n, found); r.Failure? ==> r.error == MissingIntegers
    decreases n
  {
    hide ReadSshcomMpint;
    if n > 0 && ReadSshcomMpint(data).Some? {
      var p := ReadSshcomMpint(data).value;
      ReadMpintsError(p.rest, n - 1, found + [p.value]);
    }
  }

  /** The bytes of the integers found, which are no more than were read. */
  function Total(f: seq<seq<Byte>>): nat {
    if f == [] then 0 else Total(f[..|f| - 1]) + |f[|f| - 1]|
  }

  lemma {:induction false} FoundWithinData(data: seq<Byte>, n: nat, found: seq<seq<Byte>>)
    ensures var r := ReadSshcomMpints(data, n, found); r.Success? ==> Total(r.value) <= Total(found) + |data|
    decreases n
  {
    if n > 0 && ReadSshcomMpint(data).Some? {
      var p := ReadSshcomMpint(data).value;
      assert (found + [p.value])[..|found|] == found;
      FoundWithinData(p.rest, n - 1, found + [p.value]);
    }
  }

  lemma TotalOfFive(f: seq<seq<Byte>>)
    requires |f| == 5
    ensures Total(f) == |f[0]| + |f[1]| + |f[2]| + |f[3]| + |f[4]|
  {
    assert f[..4][..3] == f[..3] && f[..3][..2] == f[..2] && f[..2][..1] == f[..1];
    assert Total(f[..1]) == |f[0]|;
    assert Total(f[..3]) == |f[0]| + |f[1]| + |f[2]|;
  }

  lemma TotalOfSix(f: seq<seq<Byte>>)
    requires |f| == 6
    ensures Total(f) == |f[0]| + |f[1]| + |f[2]| + |f[3]| + |f[4]| + |f[5]|
  {
    TotalOfFive(f[..5]);
  }

  method RebuildRsa(f: seq<seq<Byte>>, cipherlen: nat) returns (blobs: Blobs)
    requires |f| == 6 && Total(f) <= cipherlen
    ensures blobs == Rebuilt(RSA, f)
  {
    hide SshString, SshMpint, Total;
    TotalOfSix(f);
    var blob := new Byte[cipherlen + 256];
    var publen := PutRsaPublic(blob, f);
    ghost var pub := blob[..publen];
    var pos := PutRsaPrivate(blob, publen, f);
    CutAt(blob[..pos], publen, pub, Rebuilt(RSA, f).priv);
    blobs := Blobs(blob[..pos][..publen], blob[..pos][publen..]);
  }

  method PutRsaPublic(blob: array<Byte>, f: seq<seq<Byte>>) returns (publen: nat)
    requires |f| == 6 && |f[0]| + |f[2]| + 21 <= blob.Length
    modifies blob
    ensures publen <= |f[0]| + |f[2]| + 21 && blob[..publen] == Rebuilt(RSA, f).pub
  {
    hide SshString, SshMpint;
    MpintLengths(f);
    publen := PutString(blob, 0, AlgName(RSA));
    publen := PutMp(blob, publen, f[0]);
    publen := PutMp(blob, publen, f[2]);
  }

  method PutRsaPrivate(blob: array<Byte>, publen: nat, f: seq<seq<Byte>>) returns (pos: nat)
    requires |f| == 6 && publen + |f[1]| + |f[5]| + |f[4]| + |f[3]| + 19 <= blob.Length
    modifies blob
    ensures publen <= pos <= blob.Length && blob[..pos] == old(blob[..publen]) + Rebuilt(RSA, f).priv
  {
    hide SshString, SshMpint;
    MpintLengths(f);
    ghost var pub := blob[..publen];
    pos := PutString(blob, publen, f[1]);
    pos := PutMp(blob, pos, f[5]);
    pos := PutMp(blob, pos, f[4]);
    pos := PutMp(blob, pos, f[3]);
    FourAfter(pub, SshString(f[1]), SshMpint(f[5]), SshMpint(f[4]), SshMpint(f[3]));
  }

  lemma FourAfter(lead: seq<Byte>, a: seq<Byte>, b: seq<Byte>, c: seq<Byte>, d: seq<Byte>)
    ensures lead + a + b + c + d == lead + (a + b + c + d)
  {
  }

  method RebuildDsa(f: seq<seq<Byte>>, cipherlen: nat) returns (blobs: Blobs)
    requires |f| == 5 && Total(f) <= cipherlen
    ensures blobs == Rebuilt(DSA, f)
  {
    hide SshString, SshMpint, Total;
    MpintLengths(f);
    TotalOfFive(f);
    ghost var name := SshString(AlgName(DSA));
    var blob := new Byte[cipherlen + 256];
    var pos := PutString(blob, 0, AlgName(DSA));
    pos := PutMp(blob, pos, f[0]);
    pos := PutMp(blob, pos, f[2]);
    pos := PutMp(blob, pos, f[1]);
    pos := PutMp(blob, pos, f[3]);
    var publen := pos;
    ghost var pub := blob[..publen];
    assert pub == name + SshMpint(f[0]) + SshMpint(f[2]) + SshMpint(f[1]) + SshMpint(f[3]);
    pos := PutMp(blob, pos, f[4]);
    CutAt(blob[..pos], publen, pub, SshMpint(f[4]));
    blobs := Blobs(blob[..pos][..publen], blob[..pos][publen..]);
  }

  lemma CutAt(s: seq<Byte>, n: nat, a: seq<Byte>, b: seq<Byte>)
    requires s == a + b && n == |a|
    ensures s[..n] == a && s[n..] == b
  {
  }

  lemma MpintLengths(f: seq<seq<Byte>>)
    ensures forall i :: 0 <= i < |f| ==> |SshMpint(f[i])| <= 5 + |f[i]|
  {
  }

  method SshcomRead(blob: seq<Byte>, dec: Cipher) returns (r: Result<Blobs>)
    ensures r == Read(blob, dec)
  {
    hide ReadOuter, ReadContents, ReadString;
    var outer := SshcomReadOuter(blob);
    if outer.Failure? {
      return Failure(outer.error);
    }
    var (t, encrypted, section) := outer.value;
    if encrypted {
      if |section| % 8 != 0 {
        return Failure(NotWholeBlocks);
      }
      section := dec(section);
    }
    assert section[0..] == section;
    var ok, contents, _ := TakeString(section, 0);
    if !ok {
      return Failure(IllFormed);
    }
    r := SshcomReadContents(t, contents);
  }

  // ------------------------------------------------------------------
  // The round trip

  function Stripped(numbers: seq<seq<Byte>>): (r: seq<seq<Byte>>)
    ensures |r| == |numbers|
  {
    seq(|numbers|, i requires 0 <= i < |numbers| => Strip(numbers[i]))
  }

  /** The integers of the file from the `i`th on are read back stripped. */
  lemma {:induction false} ReadMpintsBack(numbers: seq<seq<Byte>>, i: nat, rest: seq<Byte>)
    requires i <= |numbers| && forall q :: 0 <= q < |numbers| ==> |numbers[q]| < 0x1000_0000
    requires SshcomMpints(numbers[..i]) + rest == SshcomMpints(numbers)
    ensures ReadSshcomMpints(rest, |numbers| - i, Stripped(numbers)[..i]) == Success(Stripped(numbers))
    decreases |numbers| - i
  {
    hide SshcomMpint, ReadSshcomMpint, Strip, SshcomMpints;
    if i == |numbers| {
      assert numbers[..i] == numbers;
      assert rest == [] && Stripped(numbers)[..i] == Stripped(numbers);
    } else {
      MpintsPrefix(numbers, i + 1);
      var tail := SshcomMpints(numbers)[|SshcomMpints(numbers[..i + 1])|..];
      RoomGrows(numbers, i);
      var done, next := SshcomMpints(numbers[..i]), SshcomMpint(numbers[i]);
      assert done + rest == done + next + tail;
      assert rest == (done + rest)[|done|..] == next + tail;
      ReadSshcomMpintBack(numbers[i], tail);
      assert Stripped(numbers)[..i] + [Strip(numbers[i])] == Stripped(numbers)[..i + 1];
      ReadMpintsBack(numbers, i + 1, tail);
    }
  }

  lemma {:induction false} MpintsPrefix(numbers: seq<seq<Byte>>, i: nat)
    requires i <= |numbers|
    ensures SshcomMpints(numbers[..i]) <= SshcomMpints(numbers)
    decreases |numbers| - i
  {
    if i == |numbers| {
      assert numbers[..i] == numbers;
    } else {
      assert numbers[..i + 1][..i] == numbers[..i];
      MpintsPrefix(numbers, i + 1);
    }
  }

  /** All the integers of the key are positive and in canonical form. */
  predicate CanonicalFields(k: KeyParts) {
    && (forall i :: 0 <= i < |PublicFields(k)| ==> Canonical(PublicFields(k)[i]))
    && (forall i :: 0 <= i < |PrivateFields(k)| ==> Canonical(PrivateFields(k)[i]))
  }

  /** What the reader makes of the private blob: RSA's `d` comes back without its sign byte. */
  function PrivateReread(k: KeyParts): seq<Byte> {
    match k
    case RsaParts(_, _, d, p, q, iqmp) => SshString(Strip(d)) + SshStrings([p, q, iqmp])
    case DsaParts(_, _, _, _, x) => SshStrings([x])
  }

  lemma ThreeStrings(a: seq<Byte>, b: seq<Byte>, c: seq<Byte>)
    ensures SshStrings([a, b, c]) == SshString(a) + SshString(b) + SshString(c)
  {
    assert [a, b, c][1..] == [b, c];
    TwoStrings(b, c);
  }

  lemma RebuiltRsaBack(e: seq<Byte>, n: seq<Byte>, d: seq<Byte>, p: seq<Byte>, q: seq<Byte>, iqmp: seq<Byte>)
    requires Canonical(e) && Canonical(n) && Canonical(d) && Canonical(p) && Canonical(q) && Canonical(iqmp)
    ensures var k := RsaParts(e, n, d, p, q, iqmp);
      Rebuilt(RSA, Stripped(Numbers(k))) == Blobs(PublicBlob(k), PrivateReread(k))
  {
    hide SshString, SshMpint, Strip, Canonical;
    StrippedCanonical(e);
    StrippedCanonical(n);
    StrippedCanonical(p);
    StrippedCanonical(q);
    StrippedCanonical(iqmp);
    TwoStrings(e, n);
    ThreeStrings(p, q, iqmp);
    var k := RsaParts(e, n, d, p, q, iqmp);
    var f := Stripped(Numbers(k));
    assert f == [Strip(e), Strip(d), Strip(n), Strip(iqmp), Strip(q), Strip(p)];
    var name := SshString(AlgName(RSA));
    assert name + SshString(e) + SshString(n) == name + (SshString(e) + SshString(n));
    var sd, sp, sq, si := SshString(Strip(d)), SshString(p), SshString(q), SshString(iqmp);
    assert sd + sp + sq + si == sd + (sp + sq + si);
  }

  lemma RebuiltDsaBack(p: seq<Byte>, q: seq<Byte>, g: seq<Byte>, y: seq<Byte>, x: seq<Byte>)
    requires Canonical(p) && Canonical(q) && Canonical(g) && Canonical(y) && Canonical(x)
    ensures var k := DsaParts(p, q, g, y, x);
      Rebuilt(DSA, Stripped(Numbers(k))) == Blobs(PublicBlob(k), PrivateBlob(k))
  {
    hide SshString, SshMpint, Strip, Canonical;
    StrippedCanonical(p);
    StrippedCanonical(q);
    StrippedCanonical(g);
    StrippedCanonical(y);
    StrippedCanonical(x);
    FourStrings(p, q, g, y);
    var k := DsaParts(p, q, g, y, x);
    assert Stripped(Numbers(k)) == [Strip(p), Strip(g), Strip(q), Strip(y), Strip(x)];
    var name, sp, sq, sg, sy := SshString(AlgName(DSA)), SshString(p), SshString(q), SshString(g), SshString(y);
    assert name + sp + sq + sg + sy == name + (sp + sq + sg + sy);
    assert [x][1..] == [] && SshStrings([x]) == SshString(x);
  }

  lemma StrippedCanonical(s: seq<Byte>)
    requires Canonical(s)
    ensures SshMpint(Strip(s)) == SshString(s)
  {
    StrippedMpintIff(s);
  }

  lemma ContentsBack(k: KeyParts)
    requires SmallFields(k) && CanonicalFields(k)
    ensures ReadContents(TypeOf(k), Payload(k)) == Success(Blobs(PublicBlob(k), PrivateReread(k)))
  {
    hide SshcomMpints, ReadSshcomMpints, Rebuilt, Put32, Get32, PublicBlob, PrivateBlob, PrivateReread, Strip;
    hide SshStrings;
    var numbers := Numbers(k);
    FieldsOfNumbers(k);
    NoMpints(numbers);
    ReadMpintsBack(numbers, 0, SshcomMpints(numbers));
    assert Stripped(numbers)[..0] == [];
    match k
    case RsaParts(e, n, d, p, q, iqmp) =>
      assert Payload(k) == SshcomMpints(numbers);
      RebuiltRsaBack(e, n, d, p, q, iqmp);
    case DsaParts(p, q, g, y, x) =>
      Get32Put32(0, SshcomMpints(numbers));
      assert Payload(k)[4..] == SshcomMpints(numbers);
      RebuiltDsaBack(p, q, g, y, x);
      DsaPrivateReread(k);
  }

  lemma DsaPrivateReread(k: KeyParts)
    requires k.DsaParts?
    ensures PrivateReread(k) == PrivateBlob(k)
  {
  }

  lemma NoMpints(numbers: seq<seq<Byte>>)
    ensures SshcomMpints(numbers[..0]) + SshcomMpints(numbers) == SshcomMpints(numbers)
  {
    assert numbers[..0] == [];
  }

  lemma FieldsOfNumbers(k: KeyParts)
    requires SmallFields(k) && CanonicalFields(k)
    ensures forall i :: 0 <= i < |Numbers(k)| ==> |Numbers(k)[i]| < 0x1000_0000 && Canonical(Numbers(k)[i])
    ensures match k
      case RsaParts(e, n, d, p, q, iqmp) =>
        Canonical(e) && Canonical(n) && Canonical(d) && Canonical(p) && Canonical(q) && Canonical(iqmp)
      case DsaParts(p, q, g, y, x) =>
        Canonical(p) && Canonical(q) && Canonical(g) && Canonical(y) && Canonical(x)
  {
    hide Canonical;
    var pub, priv := PublicFields(k), PrivateFields(k);
    match k
    case RsaParts(e, n, d, p, q, iqmp) =>
      assert pub[0] == e && pub[1] == n && priv[0] == d && priv[1] == p && priv[2] == q && priv[3] == iqmp;
    case DsaParts(p, q, g, y, x) =>
      assert pub[0] == p && pub[1] == q && pub[2] == g && pub[3] == y && priv[0] == x;
  }

  /** The names the writer uses are the ones the reader knows. */
  lemma NamesKnown(t: KeyType, encrypted: bool)
    ensures KeyTypeOf(TypeName(t)) == Success(t)
    ensures CipherName(true) != CipherName(false) && |TypeName(t)| < 100 && |CipherName(encrypted)| < 100
  {
    assert CipherName(true)[0] == '3' as int && CipherName(false)[0] == 'n' as int;
    var rsa, dsa := TypeName(RSA), TypeName(DSA);
    RsaNamePrefix();
    DsaNamePrefix();
    assert rsa[..16] == TypePrefix(RSA) && dsa[..16] == TypePrefix(DSA);
    assert dsa[..16][0] == 'd' as int && TypePrefix(RSA)[0] == 'i' as int;
  }

  lemma RsaNamePrefix()
    ensures TypeName(RSA)[..16] == TypePrefix(RSA)
  {
    var name := "if-modn{sign{rsa" + "-pkcs1-sha1},encrypt{rsa-pkcs1v2-oaep}}";
    assert name[..16] == "if-modn{sign{rsa";
    AsciiPrefix(name, 16);
  }

  lemma DsaNamePrefix()
    ensures TypeName(DSA)[..16] == TypePrefix(DSA)
    ensures TypeName(DSA)[0] == 'd' as int
  {
    var name := "dl-modp{sign{dsa" + "-nist-sha1},dh{plain}}";
    assert name[..16] == "dl-modp{sign{dsa";
    AsciiPrefix(name, 16);
  }

  lemma AsciiPrefix(s: string, n: nat)
    requires n <= |s|
    ensures Ascii(s)[..n] == Ascii(s[..n])
  {
  }

  lemma OuterBack(t: KeyType, encrypted: bool, total: nat, section: seq<Byte>)
    requires section != [] && |section| < 0x8000_0000
    ensures ReadOuter(Head(t, encrypted, total) + SshString(section)) == Success((t, encrypted, section))
  {
    hide SshString, ReadString, Get32, Put32, CipherName, TypeName, KeyTypeOf;
    var type', cipher, data := SshString(TypeName(t)), SshString(CipherName(encrypted)), SshString(section);
    var blob := Head(t, encrypted, total) + data;
    var strings := type' + (cipher + data);
    assert blob == Put32(MAGIC) + (Put32(total) + strings);
    Get32Put32(MAGIC, Put32(total) + strings);
    assert ToU32(MAGIC) == MAGIC;
    assert blob[8..] == strings;
    NamesKnown(t, encrypted);
    ReadStringBack(TypeName(t), cipher + data);
    ReadStringBack(CipherName(encrypted), data);
    ReadStringBack(section, []);
    assert data + [] == data;
  }

  lemma SectionBack(k: KeyParts, pad: seq<Byte>)
    requires |Payload(k)| < 0x8000_0000
    ensures Contents(Section(k, pad)) == Success(Payload(k))
  {
    hide Payload, SshString, ReadString;
    ReadStringBack(Payload(k), pad);
  }

  /**
   Reading a written file gives back both blobs of a key whose integers are positive and
   canonical, except that RSA's `d` has lost its sign byte.
   */
  lemma SshcomRoundTrip(k: KeyParts, cipher: Option<Cipher>, dec: Cipher, pad: seq<Byte>)
    requires SmallFields(k) && CanonicalFields(k) && |Payload(k)| < 0x7fff_0000
    requires if cipher.Some? then Fills(pad, 4 + |Payload(k)|) else pad == []
    requires cipher.Some? ==>
      var text := cipher.value(Section(k, pad)); |text| == |Section(k, pad)| && dec(text) == Section(k, pad)
    ensures Read(File(k, cipher, pad), dec) == Success(Blobs(PublicBlob(k), PrivateReread(k)))
  {
    hide Head, SshString, ReadOuter, ReadContents, PublicBlob, PrivateReread, Contents, Payload;
    var text := match cipher case None => Section(k, []) case Some(enc) => enc(Section(k, pad));
    assert |Section(k, pad)| == 4 + |Payload(k)| + |pad|;
    var total := |Head(TypeOf(k), cipher.Some?, 0)| + 4 + |text|;
    OuterBack(TypeOf(k), cipher.Some?, total, text);
    SectionBack(k, pad);
    ContentsBack(k);
  }

  /** So the private blob is byte-identical exactly if `d` has no sign byte, and its value is kept in any case. */
  lemma PrivateRereadIff(k: KeyParts)
    requires k.RsaParts? && CanonicalFields(k) && SmallFields(k)
    ensures k.d != [] && (PrivateReread(k) == PrivateBlob(k) <==> k.d[0] != 0)
    ensures Value(Strip(k.d)) == Value(k.d)
  {
    hide SshString, Value;
    FieldsOfNumbers(k);
    StripKeepsValue(k.d);
    var rest := SshStrings([k.p, k.q, k.iqmp]);
    assert PrivateFields(k)[1..] == [k.p, k.q, k.iqmp];
    assert PrivateBlob(k) == SshString(k.d) + rest;
    if k.d[0] == 0 {
      assert Strip(k.d) == k.d[1..];
      assert |PrivateReread(k)| < |PrivateBlob(k)|;
    }
  }
}
