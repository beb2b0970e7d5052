/** The public and private blobs through which RSA and DSA keys enter and leave the key file code. */
module KeyBlobs {
  import opened Bytes
  import opened SshWire

  datatype KeyType = RSA | DSA

  /** The integers of a key, as the byte strings its blobs hold. */
  datatype KeyParts =
    | RsaParts(e: seq<Byte>, n: seq<Byte>, d: seq<Byte>, p: seq<Byte>, q: seq<Byte>, iqmp: seq<Byte>)
    | DsaParts(p: seq<Byte>, q: seq<Byte>, g: seq<Byte>, y: seq<Byte>, x: seq<Byte>)

  function TypeOf(k: KeyParts): KeyType {
    if k.RsaParts? then RSA else DSA
  }

  function AlgName(t: KeyType): (r: seq<Byte>)
    ensures |r| == 7
  {
    if t == RSA then Ascii("ssh-rsa") else Ascii("ssh-dss")
  }

  function PublicFields(k: KeyParts): seq<seq<Byte>> {
    match k
    case RsaParts(e, n, _, _, _, _) => [e, n]
    case DsaParts(p, q, g, y, _) => [p, q, g, y]
  }

  function PrivateFields(k: KeyParts): seq<seq<Byte>> {
    match k
    case RsaParts(_, _, d, p, q, iqmp) => [d, p, q, iqmp]
    case DsaParts(_, _, _, _, x) => [x]
  }

  function PublicBlob(k: KeyParts): seq<Byte> {
    SshString(AlgName(TypeOf(k))) + SshStrings(PublicFields(k))
  }

  function PrivateBlob(k: KeyParts): seq<Byte> {
    SshStrings(PrivateFields(k))
  }

  datatype Blobs = Blobs(pub: seq<Byte>, priv: seq<Byte>)

  lemma FirstField(fields: seq<seq<Byte>>, i: nat)
    requires i < |fields| && |fields[i]| < 0x8000_0000
    ensures ReadString(SshStrings(fields[i..])) == Some(Parsed(fields[i], SshStrings(fields[i + 1..])))
  {
    assert fields[i..][1..] == fields[i + 1..];
    ReadStringBack(fields[i], SshStrings(fields[i + 1..]));
  }

  /** Reads `count` integers in a row out of a blob. */
  method ReadFields(blob: seq<Byte>, start: nat, count: nat, ghost fields: seq<seq<Byte>>)
    returns (numbers: seq<seq<Byte>>)
    requires start <= |blob| && count == |fields|
    requires forall i :: 0 <= i < |fields| ==> |fields[i]| < 0x8000_0000
    requires blob[start..] == SshStrings(fields)
    ensures numbers == fields
  {
    numbers := [];
    var pos: nat, i: nat := start, 0;
    while i < count
      invariant i <= count && pos <= |blob|
      invariant numbers == fields[..i] && blob[pos..] == SshStrings(fields[i..])
    {
      FirstField(fields, i);
      var first, bytes, end := Ssh2ReadMpint(blob, pos);
      numbers := numbers + [blob[first..end]];
      pos := end;
      i := i + 1;
    }
  }

  lemma SkipName(k: KeyParts)
    ensures Get32(PublicBlob(k)) == 7
    ensures PublicBlob(k)[11..] == SshStrings(PublicFields(k))
  {
    var name, fields := AlgName(TypeOf(k)), SshStrings(PublicFields(k));
    Get32Put32(7, name + fields);
    assert PublicBlob(k) == Put32(7) + (name + fields);
  }

  lemma TwoStrings(a: seq<Byte>, b: seq<Byte>)
    ensures SshStrings([a, b]) == SshString(a) + SshString(b)
  {
    assert [a, b][1..] == [b] && [b][1..] == [];
    assert SshStrings([b]) == SshString(b);
  }

  lemma FourStrings(a: seq<Byte>, b: seq<Byte>, c: seq<Byte>, d: seq<Byte>)
    ensures SshStrings([a, b, c, d]) == SshString(a) + SshString(b) + SshString(c) + SshString(d)
  {
    assert [a, b, c, d][1..] == [b, c, d] && [b, c, d][1..] == [c, d];
    TwoStrings(c, d);
    assert SshStrings([b, c, d]) == SshString(b) + (SshString(c) + SshString(d));
  }

  /** The blobs of an RSA key (section 6.6 of RFC 4253): name, e and n; d, p, q and the inverse of q. */
  lemma RsaBlobs(e: seq<Byte>, n: seq<Byte>, d: seq<Byte>, p: seq<Byte>, q: seq<Byte>, iqmp: seq<Byte>)
    ensures var k := RsaParts(e, n, d, p, q, iqmp);
      && PublicBlob(k) == SshString(Ascii("ssh-rsa")) + SshString(e) + SshString(n)
      && PrivateBlob(k) == SshString(d) + SshString(p) + SshString(q) + SshString(iqmp)
  {
    hide SshString, Ascii, SshStrings;
    TwoStrings(e, n);
    FourStrings(d, p, q, iqmp);
  }

  /** The blobs of a DSA key: name, p, q, g and y; x. */
  lemma DsaBlobs(p: seq<Byte>, q: seq<Byte>, g: seq<Byte>, y: seq<Byte>, x: seq<Byte>)
    ensures var k := DsaParts(p, q, g, y, x);
      && PublicBlob(k) == SshString(Ascii("ssh-dss")) + SshString(p) + SshString(q) + SshString(g) + SshString(y)
      && PrivateBlob(k) == SshString(x)
  {
    hide SshString, Ascii;
    FourStrings(p, q, g, y);
    assert [x][1..] == [] && SshStrings([]) == [];
    assert SshStrings([x]) == SshString(x);
  }
}
