/** ssh.com files. */
module SshComFile {
  import opened Bytes
  import opened SshWire
  import opened KeyBlobs
  import opened Bignum
  import opened SshCom

  // The bytes of an ssh.com key file: what the writer puts where, and exactly what the reader accepts.

  // ------------------------------------------------------------------
  // Numbers

  /** A stored number: its bits are counted, its value is kept, and no byte is wasted. */
  lemma StoredNumber(s: seq<Byte>)
    requires Value(s) > 0
    ensures SshcomMpint(s) == Put32(Bits(Value(s))) + Strip(s)
    ensures Value(Strip(s)) == Value(s) && |Strip(s)| == (Bits(Value(s)) + 7) / 8
  {
    StripKeepsValue(s);
    StripIsBare(s);
    BitCountMatchesBytes(Strip(s));
    assert s != [] && Value([]) == 0;
    assert |Strip(s)| == 1 ==> Strip(s)[..0] == [] && Value(Strip(s)) == Strip(s)[0];
    StrippedBits(Strip(s));
  }

  lemma {:induction false} StripIsBare(s: seq<Byte>)
    ensures |Strip(s)| > 1 ==> Strip(s)[0] != 0
    ensures s != [] ==> Strip(s) != []
  {
    if |s| > 1 && s[0] == 0 {
      StripIsBare(s[1..]);
    }
  }

  lemma {:induction false} BitLengthIsBits(b: nat)
    requires b > 0
    ensures BitLength(b) == Bits(b)
  {
    if b >= 2 {
      BitLengthIsBits(b / 2);
    }
  }

  /** The bits of the first byte and eight for each other one. */
  lemma {:induction false} StrippedBits(s: seq<Byte>)
    requires s != [] && s[0] != 0
    ensures Value(s) > 0 && BitCount(s) == Bits(Value(s))
  {
    var front := s[..|s| - 1];
    if front == [] {
      assert Value([]) == 0;
      BitLengthIsBits(s[0]);
    } else {
      StrippedBits(front);
      OneMoreByte(Value(front), s[|s| - 1]);
    }
  }

  lemma OneMoreByte(v: nat, b: Byte)
    requires v > 0
    ensures Bits(256 * v + b) == 8 + Bits(v)
  {
    BitsOfByte(256 * v + b);
    assert (256 * v + b) / 256 == v;
  }

  // ------------------------------------------------------------------
  // The writer

  /** The fields of a file: magic number, total length, type, cipher, and the enciphered part. */
  function Layout(total: nat, name: string, cipher: string, text: seq<Byte>): seq<Byte> {
    [0x3f, 0x6f, 0xf9, 0xeb] + Put32(total) + SshString(Ascii(name)) + SshString(Ascii(cipher)) + SshString(text)
  }

  lemma MagicBytes()
    ensures Put32(MAGIC) == [0x3f, 0x6f, 0xf9, 0xeb]
  {
  }

  function TypeText(k: KeyParts): string {
    if k.RsaParts? then "if-modn{sign{rsa" + "-pkcs1-sha1},encrypt{rsa-pkcs1v2-oaep}}"
    else "dl-modp{sign{dsa" + "-nist-sha1},dh{plain}}"
  }

  lemma FileLayout(k: KeyParts, cipher: Option<Cipher>, pad: seq<Byte>, text: seq<Byte>)
    requires text == match cipher case None => Section(k, []) case Some(enc) => enc(Section(k, pad))
    ensures File(k, cipher, pad)
         == Layout(|File(k, cipher, pad)|, TypeText(k), if cipher.Some? then "3des-cbc" else "none", text)
  {
    hide Section, Put32, SshString, Ascii, Head, Layout;
    var t, encrypted := TypeOf(k), cipher.Some?;
    var total := |Head(t, encrypted, 0)| + 4 + |text|;
    HeadLength(t, encrypted, total);
    assert |File(k, cipher, pad)| == total;
    HeadLayout(k, encrypted, total, text);
  }

  lemma HeadLayout(k: KeyParts, encrypted: bool, total: nat, text: seq<Byte>)
    ensures Head(TypeOf(k), encrypted, total) + SshString(text)
      == Layout(total, TypeText(k), if encrypted then "3des-cbc" else "none", text)
  {
    hide SshString, Ascii, Put32;
    MagicBytes();
    assert TypeName(TypeOf(k)) == Ascii(TypeText(k));
    assert CipherName(encrypted) == Ascii(if encrypted then "3des-cbc" else "none");
  }

  lemma HeadLength(t: KeyType, encrypted: bool, total: nat)
    ensures |Head(t, encrypted, total)| == |Head(t, encrypted, 0)|
  {
    hide Names;
  }

  /** The part to be enciphered: an RSA key's e, d, n, inverse of q, q and p, in this order; then the filling. */
  lemma RsaSection(e: seq<Byte>, n: seq<Byte>, d: seq<Byte>, p: seq<Byte>, q: seq<Byte>, iqmp: seq<Byte>,
                   pad: seq<Byte>)
    ensures Section(RsaParts(e, n, d, p, q, iqmp), pad)
         == SshString(SshcomMpint(e) + SshcomMpint(d) + SshcomMpint(n) + SshcomMpint(iqmp) + SshcomMpint(q)
                      + SshcomMpint(p)) + pad
  {
    hide SshcomMpint, SshString;
    var ns := [e, d, n, iqmp, q, p];
    assert ns[..5][..4] == ns[..4] && ns[..4][..3] == ns[..3] && ns[..3][..2] == ns[..2] && ns[..2][..1] == ns[..1];
    assert SshcomMpints(ns[..0]) == [];
    assert SshcomMpints(ns[..1]) == SshcomMpint(e);
    assert SshcomMpints(ns[..3]) == SshcomMpint(e) + SshcomMpint(d) + SshcomMpint(n);
    assert SshcomMpints(ns[..5])
      == SshcomMpint(e) + SshcomMpint(d) + SshcomMpint(n) + SshcomMpint(iqmp) + SshcomMpint(q);
    assert Payload(RsaParts(e, n, d, p, q, iqmp)) == SshcomMpints(ns);
  }

  /** A DSA key's zero word, p, g, q, y and x. */
  lemma DsaSection(p: seq<Byte>, q: seq<Byte>, g: seq<Byte>, y: seq<Byte>, x: seq<Byte>, pad: seq<Byte>)
    ensures Section(DsaParts(p, q, g, y, x), pad)
         == SshString([0, 0, 0, 0] + (SshcomMpint(p) + SshcomMpint(g) + SshcomMpint(q) + SshcomMpint(y)
                      + SshcomMpint(x))) + pad
  {
    hide SshcomMpint, SshString;
    var ns := [p, g, q, y, x];
    assert ns[..4][..3] == ns[..3] && ns[..3][..2] == ns[..2] && ns[..2][..1] == ns[..1];
    assert SshcomMpints(ns[..0]) == [];
    assert SshcomMpints(ns[..2]) == SshcomMpint(p) + SshcomMpint(g);
    assert SshcomMpints(ns[..4]) == SshcomMpint(p) + SshcomMpint(g) + SshcomMpint(q) + SshcomMpint(y);
    assert Payload(DsaParts(p, q, g, y, x)) == [0, 0, 0, 0] + SshcomMpints(ns);
  }

  // ------------------------------------------------------------------
  // The reader: the outer structure

  predicate Short(s: seq<Byte>) {
    |s| < 0x8000_0000
  }

  /** A name is known by how it begins, and has to be longer than that. */
  function Beginning(t: KeyType): (b: seq<Byte>)
    ensures |b| == 16
  {
    if t == RSA then Ascii("if-modn{sign{rsa") else Ascii("dl-modp{sign{dsa")
  }

  predicate IsOuter(blob: seq<Byte>, t: KeyType, encrypted: bool, data: seq<Byte>, len: seq<Byte>, name: seq<Byte>,
                    rest: seq<Byte>) {
    && |len| == 4 && Short(name) && Short(data) && data != []
    && Beginning(t) < name
    && blob == [0x3f, 0x6f, 0xf9, 0xeb] + len
         + (SshString(name) + (SshString(Ascii(if encrypted then "3des-cbc" else "none")) + (SshString(data) + rest)))
  }

  lemma NextStringBack(s: seq<Byte>, rest: seq<Byte>, error: Error)
    requires Short(s)
    ensures NextString(SshString(s) + rest, error) == Success(Parsed(s, rest))
  {
    ReadStringBack(s, rest);
  }

  lemma NextStringOnly(data: seq<Byte>, error: Error)
    requires NextString(data, error).Success?
    ensures var p := NextString(data, error).value; data == SshString(p.value) + p.rest && Short(p.value)
  {
    ReadStringOnly(data);
  }

  lemma MagicIff(blob: seq<Byte>)
    requires |blob| >= 4
    ensures Get32(blob) == MAGIC <==> blob[..4] == [0x3f, 0x6f, 0xf9, 0xeb]
  {
    Put32Get32(blob[..4]);
    assert Get32(blob[..4]) == Get32(blob);
    MagicBytes();
    assert Get32([0x3f, 0x6f, 0xf9, 0xeb]) == MAGIC;
  }

  lemma NameIff(name: seq<Byte>, t: KeyType)
    ensures KeyTypeOf(name) == Success(t) <==> Beginning(t) < name
  {
    BeginningsDiffer();
  }

  lemma BeginningsDiffer()
    ensures Beginning(RSA) == TypePrefix(RSA) && Beginning(DSA) == TypePrefix(DSA) && Beginning(RSA) != Beginning(DSA)
  {
    assert Beginning(RSA)[0] == 'i' as int && Beginning(DSA)[0] == 'd' as int;
  }

  lemma CiphersDiffer()
    ensures CipherName(true) == Ascii("3des-cbc") && CipherName(false) == Ascii("none")
    ensures CipherName(true) != CipherName(false) && Short(CipherName(true)) && Short(CipherName(false))
  {
    assert |"3des-cbc"| == 8 && |"none"| == 4;
  }

  lemma OuterOnly(blob: seq<Byte>, t: KeyType, encrypted: bool, data: seq<Byte>)
    returns (len: seq<Byte>, name: seq<Byte>, rest: seq<Byte>)
    requires ReadOuter(blob) == Success((t, encrypted, data))
    ensures IsOuter(blob, t, encrypted, data, len, name, rest)
  {
    hide NextString, SshString, KeyTypeOf, Get32, Ascii, CipherName, Beginning;
    MagicIff(blob);
    CiphersDiffer();
    NextStringOnly(blob[8..], NoKeyType);
    var n := NextString(blob[8..], NoKeyType).value;
    NameIff(n.value, t);
    NextStringOnly(n.rest, NoCipher);
    var c := NextString(n.rest, NoCipher).value;
    NextStringOnly(c.rest, NoKeyData);
    len, name, rest := blob[4..8], n.value, NextString(c.rest, NoKeyData).value.rest;
    assert blob == blob[..4] + blob[4..8] + blob[8..];
  }

  lemma OuterIs(blob: seq<Byte>, t: KeyType, encrypted: bool, data: seq<Byte>, len: seq<Byte>, name: seq<Byte>,
                rest: seq<Byte>)
    requires IsOuter(blob, t, encrypted, data, len, name, rest)
    ensures ReadOuter(blob) == Success((t, encrypted, data))
  {
    hide NextString, SshString, KeyTypeOf, Get32, Ascii, CipherName, Beginning;
    MagicIff(blob);
    CiphersDiffer();
    NameIff(name, t);
    var cipher := CipherName(encrypted);
    var afterName := SshString(cipher) + (SshString(data) + rest);
    assert blob[..4] == [0x3f, 0x6f, 0xf9, 0xeb] && blob[8..] == SshString(name) + afterName;
    NextStringBack(name, afterName, NoKeyType);
    NextStringBack(cipher, SshString(data) + rest, NoCipher);
    NextStringBack(data, rest, NoKeyData);
  }

  // ------------------------------------------------------------------
  // The reader: the integers

  /** A bit count and its bytes: as many as the count, rounded up, makes up (in 32 bits). */
  datatype Counted = Counted(bits: nat, bytes: seq<Byte>)

  predicate Counts(f: Counted) {
    f.bits < 0x1_0000_0000 && |f.bytes| == (f.bits + 7) % 0x1_0000_0000 / 8
  }

  function CountedText(fields: seq<Counted>): seq<Byte> {
    if fields == [] then [] else Put32(fields[0].bits) + fields[0].bytes + CountedText(fields[1..])
  }

  function BytesOf(fields: seq<Counted>): (r: seq<seq<Byte>>)
    ensures |r| == |fields|
  {
    seq(|fields|, i requires 0 <= i < |fields| => fields[i].bytes)
  }

  predicate AllCount(fields: seq<Counted>) {
    forall i :: 0 <= i < |fields| ==> Counts(fields[i])
  }

  lemma NumberOnly(data: seq<Byte>)
    requires ReadSshcomMpint(data).Some?
    ensures var p := ReadSshcomMpint(data).value;
      Counts(Counted(Get32(data), p.value)) && data == Put32(Get32(data)) + p.value + p.rest
  {
    Put32Get32(data[..4]);
    assert Get32(data[..4]) == Get32(data);
  }

  lemma NumberBack(f: Counted, rest: seq<Byte>)
    requires Counts(f)
    ensures ReadSshcomMpint(Put32(f.bits) + f.bytes + rest) == Some(Parsed(f.bytes, rest))
  {
    hide Put32, Get32, ReadSshcomMpint, Counts;
    var data := Put32(f.bits) + f.bytes + rest;
    Get32Put32(f.bits, f.bytes + rest);
    assert data == Put32(f.bits) + (f.bytes + rest);
    assert data[4..4 + |f.bytes|] == f.bytes && data[4 + |f.bytes|..] == rest;
    NumberIs(data, f, rest);
  }

  lemma NumberIs(data: seq<Byte>, f: Counted, rest: seq<Byte>)
    requires Counts(f) && |data| >= 4 + |f.bytes| && Get32(data) == ToU32(f.bits)
    requires data[4..4 + |f.bytes|] == f.bytes && data[4 + |f.bytes|..] == rest
    ensures ReadSshcomMpint(data) == Some(Parsed(f.bytes, rest))
  {
    hide Get32;
  }

  lemma {:induction false} NumbersBack(fields: seq<Counted>, rest: seq<Byte>, found: seq<seq<Byte>>)
    requires AllCount(fields)
    ensures ReadSshcomMpints(CountedText(fields) + rest, |fields|, found) == Success(found + BytesOf(fields))
  {
    hide ReadSshcomMpint, Put32;
    if fields == [] {
      assert found + BytesOf(fields) == found;
    } else {
      var tail := CountedText(fields[1..]) + rest;
      ConcatAssoc(Put32(fields[0].bits) + fields[0].bytes, CountedText(fields[1..]), rest);
      NumberBack(fields[0], tail);
      NumbersBack(fields[1..], rest, found + [fields[0].bytes]);
      assert found + [fields[0].bytes] + BytesOf(fields[1..]) == found + BytesOf(fields);
    }
  }

  lemma {:induction false} NumbersOnly(data: seq<Byte>, n: nat, found: seq<seq<Byte>>)
    returns (fields: seq<Counted>, rest: seq<Byte>)
    requires ReadSshcomMpints(data, n, found).Success?
    ensures |fields| == n && AllCount(fields) && data == CountedText(fields) + rest
    ensures ReadSshcomMpints(data, n, found) == Success(found + BytesOf(fields))
    decreases n
  {
    hide ReadSshcomMpint, Put32, Get32, Counts;
    if n == 0 {
      fields, rest := [], data;
      assert found + BytesOf(fields) == found;
    } else {
      NumberOnly(data);
      var p := ReadSshcomMpint(data).value;
      var f, fs := Counted(Get32(data), p.value), [];
      fs, rest := NumbersOnly(p.rest, n - 1, found + [p.value]);
      fields := [f] + fs;
      assert fields[1..] == fs;
      ConcatAssoc(Put32(f.bits) + f.bytes, CountedText(fs), rest);
      assert found + [p.value] + BytesOf(fs) == found + BytesOf(fields);
    }
  }

  // ------------------------------------------------------------------
  // The reader: the whole file

  /** The contents of a key: for DSA a zero word first, then the integers, then anything. */
  predicate IsContents(t: KeyType, contents: seq<Byte>, fields: seq<Counted>, rest: seq<Byte>) {
    && |fields| == (if t == RSA then 6 else 5) && AllCount(fields)
    && contents == (if t == RSA then [] else [0, 0, 0, 0]) + (CountedText(fields) + rest)
  }

  /** The blobs of an RSA key from e, d, n, inverse of q, q and p; of a DSA key from p, g, q, y and x. */
  function BlobsOf(t: KeyType, f: seq<seq<Byte>>): Blobs
    requires |f| == if t == RSA then 6 else 5
  {
    if t == RSA then
      Blobs(SshString(Ascii("ssh-rsa")) + SshMpint(f[0]) + SshMpint(f[2]),
            SshString(f[1]) + SshMpint(f[5]) + SshMpint(f[4]) + SshMpint(f[3]))
    else
      Blobs(SshString(Ascii("ssh-dss")) + SshMpint(f[0]) + SshMpint(f[2]) + SshMpint(f[1]) + SshMpint(f[3]),
            SshMpint(f[4]))
  }

  lemma ContentsBack(t: KeyType, contents: seq<Byte>, fields: seq<Counted>, rest: seq<Byte>)
    requires IsContents(t, contents, fields, rest)
    ensures ReadContents(t, contents) == Success(BlobsOf(t, BytesOf(fields)))
  {
    hide ReadSshcomMpints, SshString, SshMpint, CountedText, AllCount, Get32, Put32;
    NumbersBack(fields, rest, []);
    assert [] + BytesOf(fields) == BytesOf(fields);
    assert contents[if t == RSA then 0 else 4..] == CountedText(fields) + rest;
    ZeroWord(CountedText(fields) + rest);
  }

  lemma ZeroWord(rest: seq<Byte>)
    ensures Get32([0, 0, 0, 0] + rest) == 0
  {
  }

  lemma ZeroWordOnly(data: seq<Byte>)
    requires |data| >= 4 && Get32(data) == 0
    ensures data == [0, 0, 0, 0] + data[4..]
  {
    Put32Get32(data[..4]);
    assert Get32(data[..4]) == 0;
    assert Put32(0) == [0, 0, 0, 0];
    assert data == data[..4] + data[4..];
  }

  lemma ContentsOnly(t: KeyType, contents: seq<Byte>) returns (fields: seq<Counted>, rest: seq<Byte>)
    requires ReadContents(t, contents).Success?
    ensures IsContents(t, contents, fields, rest)
    ensures ReadContents(t, contents) == Success(BlobsOf(t, BytesOf(fields)))
  {
    hide ReadSshcomMpints, SshString, SshMpint, CountedText, AllCount, Get32, Put32;
    if t == RSA {
      fields, rest := NumbersOnly(contents, 6, []);
      assert [] + (CountedText(fields) + rest) == contents;
    } else {
      fields, rest := NumbersOnly(contents[4..], 5, []);
      ZeroWordOnly(contents);
    }
    assert [] + BytesOf(fields) == BytesOf(fields);
  }

  /** The text deciphered: a string with the contents, and filling. */
  predicate HoldsKey(text: seq<Byte>, t: KeyType, contents: seq<Byte>, pad: seq<Byte>, fields: seq<Counted>,
                     rest: seq<Byte>) {
    Short(contents) && text == SshString(contents) + pad && IsContents(t, contents, fields, rest)
  }

  ghost predicate IsComFile(blob: seq<Byte>, t: KeyType, encrypted: bool, data: seq<Byte>) {
    exists len, name, rest :: IsOuter(blob, t, encrypted, data, len, name, rest)
  }

  ghost predicate IsComKey(text: seq<Byte>, t: KeyType, blobs: Blobs) {
    exists contents, pad, fields, rest ::
      HoldsKey(text, t, contents, pad, fields, rest) && blobs == BlobsOf(t, BytesOf(fields))
  }

  lemma OuterIff(blob: seq<Byte>, t: KeyType, encrypted: bool, data: seq<Byte>)
    ensures ReadOuter(blob) == Success((t, encrypted, data)) <==> IsComFile(blob, t, encrypted, data)
  {
    hide ReadOuter, IsOuter;
    if ReadOuter(blob) == Success((t, encrypted, data)) {
      var len, name, rest := OuterOnly(blob, t, encrypted, data);
    }
    forall len, name, rest | IsOuter(blob, t, encrypted, data, len, name, rest)
      ensures ReadOuter(blob) == Success((t, encrypted, data))
    {
      OuterIs(blob, t, encrypted, data, len, name, rest);
    }
  }

  lemma KeyIff(text: seq<Byte>, t: KeyType, blobs: Blobs)
    ensures (Contents(text).Success? && ReadContents(t, Contents(text).value) == Success(blobs))
       <==> IsComKey(text, t, blobs)
  {
    hide ReadContents, NextString, BlobsOf, SshString, AllCount, CountedText;
    if Contents(text).Success? && ReadContents(t, Contents(text).value) == Success(blobs) {
      NextStringOnly(text, IllFormed);
      var p := NextString(text, IllFormed).value;
      var fields, rest := ContentsOnly(t, p.value);
      assert HoldsKey(text, t, p.value, p.rest, fields, rest);
    }
    forall contents, pad, fields, rest | HoldsKey(text, t, contents, pad, fields, rest)
        && blobs == BlobsOf(t, BytesOf(fields))
      ensures Contents(text).Success? && ReadContents(t, Contents(text).value) == Success(blobs)
    {
      NextStringBack(contents, pad, IllFormed);
      ContentsBack(t, contents, fields, rest);
    }
  }

  /** A key is read exactly from files of that form; the data must be whole blocks if they are enciphered. */
  lemma SshcomAcceptsIff(blob: seq<Byte>, dec: Cipher, blobs: Blobs)
    ensures Read(blob, dec) == Success(blobs) <==>
      exists t, encrypted, data ::
        && IsComFile(blob, t, encrypted, data) && (encrypted ==> |data| % 8 == 0)
        && IsComKey(if encrypted then dec(data) else data, t, blobs)
  {
    hide ReadOuter, ReadContents, Contents, IsComFile, IsComKey;
    if ReadOuter(blob).Success? {
      var o := ReadOuter(blob).value;
      forall t, encrypted, data
        ensures IsComFile(blob, t, encrypted, data) <==> o == (t, encrypted, data)
      {
        OuterIff(blob, t, encrypted, data);
      }
      KeyIff(if o.1 then dec(o.2) else o.2, o.0, blobs);
      assert IsComFile(blob, o.0, o.1, o.2);
    } else {
      forall t, encrypted, data
        ensures !IsComFile(blob, t, encrypted, data)
      {
        OuterIff(blob, t, encrypted, data);
      }
    }
  }

  /** The magic number decides first. */
  lemma BadMagicIff(blob: seq<Byte>, dec: Cipher)
    ensures Read(blob, dec) == Failure(BadMagic) <==> !([0x3f, 0x6f, 0xf9, 0xeb] <= blob)
  {
    hide ReadOuter, ReadContents, Get32, NextString;
    OuterErrors(blob);
    if ReadOuter(blob).Success? {
      var o := ReadOuter(blob).value;
      var text := if o.1 then dec(o.2) else o.2;
      NextStringError(text, IllFormed);
      if Contents(text).Success? {
        ContentsErrors(o.0, Contents(text).value);
      }
    }
  }

  lemma NextStringError(data: seq<Byte>, error: Error)
    ensures NextString(data, error).Failure? ==> NextString(data, error).error == error
  {
  }

  lemma ContentsErrors(t: KeyType, contents: seq<Byte>)
    ensures ReadContents(t, contents) != Failure(BadMagic)
  {
    hide ReadSshcomMpints, Rebuilt, Get32;
    ReadMpintsError(contents, 6, []);
    if |contents| >= 4 {
      ReadMpintsError(contents[4..], 5, []);
    }
  }

  lemma OuterErrors(blob: seq<Byte>)
    ensures ReadOuter(blob) == Failure(BadMagic) <==> !([0x3f, 0x6f, 0xf9, 0xeb] <= blob)
  {
    hide NextString, KeyTypeOf, Get32, CipherName;
    if |blob| >= 4 {
      MagicIff(blob);
      assert blob[..4] == [0x3f, 0x6f, 0xf9, 0xeb] <==> [0x3f, 0x6f, 0xf9, 0xeb] <= blob;
    }
    if |blob| >= 8 {
      NextStringError(blob[8..], NoKeyType);
      if NextString(blob[8..], NoKeyType).Success? {
        var name := NextString(blob[8..], NoKeyType).value;
        TypeErrors(name.value);
        NextStringError(name.rest, NoCipher);
        if NextString(name.rest, NoCipher).Success? {
          NextStringError(NextString(name.rest, NoCipher).value.rest, NoKeyData);
        }
      }
    }
  }

  lemma TypeErrors(name: seq<Byte>)
    ensures KeyTypeOf(name) != Failure(BadMagic)
  {
  }

  /** The filling is as short as it can be. */
  lemma FillsIff(pad: seq<Byte>, len: nat)
    ensures Fills(pad, len) <==> |pad| == (8 - len % 8) % 8
  {
  }
}
