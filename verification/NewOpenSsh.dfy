/** New OpenSSH keys. */
module NewOpenSsh {
  import opened Bytes
  import opened SshWire

  // OpenSSH's new private key format: the writer, the loader of the outer structure, and the
  // reader of the (possibly enciphered) private section.

  /** A key as the format holds it; the private part is a fixed number of strings. */
  datatype NewKey = NewKey(name: seq<Byte>, pub: seq<Byte>, pieces: seq<seq<Byte>>, comment: seq<Byte>)

  /** How the private section is protected: not at all, or by AES keyed through bcrypt. */
  datatype Kdf = KdfNone | KdfBcrypt(salt: seq<Byte>, rounds: nat)

  datatype Protection = Plain | WithPassphrase(salt: seq<Byte>)

  const ROUNDS: nat := 16

  function Magic(): (r: seq<Byte>)
    ensures |r| == 15
  {
    Ascii("openssh-key-v1") + [0]
  }

  function KdfOf(protection: Protection): Kdf {
    match protection
    case Plain => KdfNone
    case WithPassphrase(salt) => KdfBcrypt(salt, ROUNDS)
  }

  function CipherFields(protection: Protection): seq<Byte> {
    match protection
    case Plain => SshString(Ascii("none")) + SshString(Ascii("none")) + SshString([])
    case WithPassphrase(salt) =>
      SshString(Ascii("aes256-cbc")) + SshString(Ascii("bcrypt")) + SshString(SshString(salt) + Put32(ROUNDS))
  }

  function SectionBody(k: NewKey, checkint: nat): seq<Byte> {
    Put32(checkint) + Put32(checkint) + SshString(k.name) + SshStrings(k.pieces) + SshString(k.comment)
  }

  /** 1, 2, 3, ... up to the next multiple of 16, and always at least one byte. */
  function Padding(len: nat): (r: seq<Byte>)
    ensures 1 <= |r| <= 16 && (len + |r|) % 16 == 0
    ensures forall i :: 0 <= i < |r| ==> r[i] == i + 1
  {
    seq(16 - len % 16, i requires 0 <= i < 16 => i + 1)
  }

  function Section(k: NewKey, checkint: nat): (r: seq<Byte>)
    ensures |r| % 16 == 0
  {
    SectionBody(k, checkint) + Padding(|SectionBody(k, checkint)|)
  }

  /** A cipher for the private section under a passphrase. */
  type Cipher = (Kdf, seq<Byte>) -> seq<Byte>

  predicate KeepsLength(enc: Cipher, x: seq<Byte>, kdf: Kdf) {
    |enc(kdf, x)| == |x|
  }

  function Protected(k: NewKey, checkint: nat, protection: Protection, enc: Cipher): seq<Byte> {
    match protection
    case Plain => Section(k, checkint)
    case WithPassphrase(_) => enc(KdfOf(protection), Section(k, checkint))
  }

  /** Everything in front of the private section. */
  function Head(pub: seq<Byte>, protection: Protection): seq<Byte> {
    Magic() + CipherFields(protection) + Put32(1) + SshString(pub)
  }

  function File(k: NewKey, checkint: nat, protection: Protection, enc: Cipher): seq<Byte> {
    Head(k.pub, protection) + SshString(Protected(k, checkint, protection, enc))
  }

  // ------------------------------------------------------------------
  // The writer

  /** The size the writer allocates. */
  function MaxSize(k: NewKey): nat {
    16 + 32 + 32 + 64 + 4 + (4 + |k.pub|) + 4 + 8 + (4 + |k.name|) + |SshStrings(k.pieces)| + (4 + |k.comment|) + 16
  }

  /** A salt is always 16 random bytes. */
  predicate ValidProtection(protection: Protection) {
    protection.WithPassphrase? ==> |protection.salt| == 16
  }

  /** The writer's own assertion, which its estimate of the size has to justify. */
  lemma EstimateSuffices(k: NewKey, checkint: nat, protection: Protection)
    requires ValidProtection(protection)
    ensures |Head(k.pub, protection)| + 4 + |Section(k, checkint)| < MaxSize(k)
    ensures |Section(k, checkint)| <= |SectionBody(k, checkint)| + 16
    ensures |Head(k.pub, protection)| + 4 + |SectionBody(k, checkint)| + 16 <= MaxSize(k)
  {
  }

  method PutCipherFields(outblob: array<Byte>, start: nat, protection: Protection) returns (p: nat)
    requires ValidProtection(protection) && start + |CipherFields(protection)| <= outblob.Length
    modifies outblob
    ensures p == start + |CipherFields(protection)|
    ensures outblob[..p] == old(outblob[..start]) + CipherFields(protection)
  {
    hide Put32, SshString;
    ghost var lead := outblob[..start];
    match protection
    case Plain =>
      p := PutString(outblob, start, Ascii("none"));
      p := PutString(outblob, p, Ascii("none"));
      p := PutString(outblob, p, []);
      assert outblob[..p] == lead + CipherFields(protection);
    case WithPassphrase(salt) =>
      p := PutString(outblob, start, Ascii("aes256-cbc"));
      p := PutString(outblob, p, Ascii("bcrypt"));
      p := PutKdfOptions(outblob, p, salt);
      assert outblob[..p] == lead + CipherFields(protection);
  }

  /** The length of the options is filled in once they have been written. */
  method PutKdfOptions(outblob: array<Byte>, q: nat, salt: seq<Byte>) returns (p: nat)
    requires q + 12 + |salt| <= outblob.Length
    modifies outblob
    ensures p == q + 12 + |salt|
    ensures outblob[..p] == old(outblob[..q]) + SshString(SshString(salt) + Put32(ROUNDS))
  {
    hide Put32, SshString, Overlaid;
    ghost var lead, skipped, options := outblob[..q], outblob[q..q + 4], SshString(salt) + Put32(ROUNDS);
    assert outblob[..q + 4] == lead + skipped;
    p := PutString(outblob, q + 4, salt);
    p := Append(outblob, p, Put32(ROUNDS));
    ConcatAssoc(lead + skipped, SshString(salt), Put32(ROUNDS));
    Overlay(outblob, q, Put32(p - (q + 4)), p);
    OverlaidPart(lead, skipped, options, Put32(|options|));
    StringField(lead, options);
  }

  /** The padding goes on exactly until a whole number of blocks is reached. */
  lemma PaddingEnds(len: nat, q: nat)
    requires 1 <= q <= |Padding(len)|
    ensures (len + q) % 16 == 0 <==> q == |Padding(len)|
    ensures q < |Padding(len)| ==> Padding(len)[..q] + [q + 1] == Padding(len)[..q + 1]
  {
  }

  method PutPadding(outblob: array<Byte>, start: nat, section: nat) returns (p: nat)
    requires section <= start && start + 16 <= outblob.Length
    modifies outblob
    ensures p == start + |Padding(start - section)|
    ensures outblob[..p] == old(outblob[..start]) + Padding(start - section)
  {
    hide Padding;
    ghost var lead, pad := outblob[..start], Padding(start - section);
    PaddingEnds(start - section, 1);
    p := Append(outblob, start, [1]);
    assert pad[..1] == [1];
    var padvalue := 2;
    while (p - section) % 16 != 0
      invariant start < p <= start + |pad| && padvalue == p - start + 1
      invariant outblob[..p] == lead + pad[..p - start]
      decreases start + |pad| - p
    {
      PaddingEnds(start - section, p - start);
      ConcatAssoc(lead, pad[..p - start], [padvalue]);
      p := Append(outblob, p, [padvalue]);
      padvalue := padvalue + 1;
      PaddingEnds(start - section, p - start);
    }
  }

  /** The fields of the section, each put behind the ones before it. */
  lemma BodyFields(lead: seq<Byte>, k: NewKey, checkint: nat)
    ensures var c, name := Put32(checkint), SshString(k.name);
      var pieces, comment := SshStrings(k.pieces), SshString(k.comment);
      && |SectionBody(k, checkint)| == 8 + |name| + |pieces| + |comment|
      && lead + c + c + name + pieces + comment == lead + SectionBody(k, checkint)
  {
    hide Put32, SshString, SshStrings;
  }

  /** The private section in clear. */
  method PutSection(outblob: array<Byte>, start: nat, checkint: nat, name: seq<Byte>, privblob: seq<Byte>,
                    comment: seq<Byte>, ghost k: NewKey)
    returns (p: nat)
    requires name == k.name && comment == k.comment && privblob == SshStrings(k.pieces)
    requires start + |SectionBody(k, checkint)| + 16 <= outblob.Length
    modifies outblob
    ensures p == start + |Section(k, checkint)| <= outblob.Length
    ensures outblob[..p] == old(outblob[..start]) + Section(k, checkint)
  {
    hide Put32, SshString, SshStrings, SectionBody, Padding;
    ghost var lead, body := outblob[..start], SectionBody(k, checkint);
    BodyFields(lead, k, checkint);
    p := Append(outblob, start, Put32(checkint));
    p := Append(outblob, p, Put32(checkint));
    p := PutString(outblob, p, name);
    p := Append(outblob, p, privblob);
    p := PutString(outblob, p, comment);
    p := PutPadding(outblob, p, start);
    ConcatAssoc(lead, body, Padding(|body|));
  }

  /** The whole of the writer, up to the file. */
  method NewWrite(name: seq<Byte>, pubblob: seq<Byte>, privblob: seq<Byte>, comment: seq<Byte>, checkint: nat,
                  protection: Protection, enc: Cipher, ghost k: NewKey)
    returns (file: seq<Byte>)
    requires name == k.name && comment == k.comment && pubblob == k.pub && privblob == SshStrings(k.pieces)
    requires ValidProtection(protection)
    requires KeepsLength(enc, Section(k, checkint), KdfOf(protection))
    ensures file == File(k, checkint, protection, enc)
  {
    hide Head, SectionBody, Section, SshString;
    var maxsize := 16 + 32 + 32 + 64 + 4 + (4 + |pubblob|) + 4 + 8 + (4 + |name|) + |privblob| + (4 + |comment|) + 16;
    EstimateSuffices(k, checkint, protection);
    var outblob := new Byte[maxsize];
    var p := PutHead(outblob, pubblob, protection);
    ghost var head, skipped := outblob[..p], outblob[p..p + 4];
    assert outblob[..p + 4] == head + skipped;
    var end := PutSection(outblob, p + 4, checkint, name, privblob, comment, k);
    assert end < maxsize;
    FinishSection(outblob, p, end, protection, enc, head, skipped, Section(k, checkint));
    file := outblob[..end];
  }

  method PutHead(outblob: array<Byte>, pubblob: seq<Byte>, protection: Protection) returns (p: nat)
    requires ValidProtection(protection) && |Head(pubblob, protection)| <= outblob.Length
    modifies outblob
    ensures p == |Head(pubblob, protection)| && outblob[..p] == Head(pubblob, protection)
  {
    hide CipherFields, Put32, SshString;
    p := Append(outblob, 0, Magic());
    p := PutCipherFields(outblob, p, protection);
    p := Append(outblob, p, Put32(1));
    p := PutString(outblob, p, pubblob);
    assert outblob[..p] == Magic() + CipherFields(protection) + Put32(1) + SshString(pubblob);
  }

  /** The length field, then the cipher. */
  method FinishSection(outblob: array<Byte>, p: nat, end: nat, protection: Protection, enc: Cipher,
                       ghost head: seq<Byte>, ghost skipped: seq<Byte>, ghost section: seq<Byte>)
    requires p + 4 <= end <= outblob.Length && |head| == p && |skipped| == 4 && end == p + 4 + |section|
    requires outblob[..end] == head + skipped + section
    requires KeepsLength(enc, section, KdfOf(protection))
    modifies outblob
    ensures outblob[..end] == head + SshString(if protection.Plain? then section else enc(KdfOf(protection), section))
  {
    hide Put32, Overlaid, SshString;
    OverlaidPart(head, skipped, section, Put32(|section|));
    Overlay(outblob, p, Put32(end - (p + 4)), end);
    ghost var front := head + Put32(|section|);
    if protection.WithPassphrase? {
      assert outblob[p + 4..end] == (front + section)[p + 4..] == section;
      var text := enc(KdfOf(protection), outblob[p + 4..end]);
      LastOverlaid(front, section, text);
      Overlay(outblob, p + 4, text, end);
      StringField(head, text);
    } else {
      StringField(head, section);
    }
  }

  // ------------------------------------------------------------------
  // The loader

  datatype Error =
    | BadMagic | NoCipher | UnknownCipher | NoKdf | UnknownKdf | NoKdfOptions | OptionsNotEmpty
    | NoSalt | NoRounds | NoKeyCount | MultipleKeys | NoPublicKey | NoPrivateSection
    | NotWholeBlocks | CheckFailed | NoKeyType | UnknownKeyType | KeyTooShort | NoComment | BadPadding

  type Result<+T> = Outcome<T, Error>

  /** The outer structure of a file; `encrypted` is false for the cipher "none". */
  datatype Loaded = Loaded(encrypted: bool, kdf: Kdf, pub: seq<Byte>, privatestr: seq<Byte>)

  /** Cipher, key derivation and its options, and what follows them. */
  function LoadCipher(data: seq<Byte>): Result<Parsed<(bool, Kdf)>> {
    var cipher :- Need(ReadString(data), NoCipher);
    var _ :- Check(cipher.value == Ascii("none") || cipher.value == Ascii("aes256-cbc"), UnknownCipher);
    var kdf :- Need(ReadString(cipher.rest), NoKdf);
    var _ :- Check(kdf.value == Ascii("none") || kdf.value == Ascii("bcrypt"), UnknownKdf);
    var options :- Need(ReadString(kdf.rest), NoKdfOptions);
    var k :- LoadKdf(kdf.value == Ascii("none"), options.value);
    Success(Parsed((cipher.value != Ascii("none"), k), options.rest))
  }

  function LoadKdf(none: bool, options: seq<Byte>): Result<Kdf> {
    if none then
      if options == [] then Success(KdfNone) else Failure(OptionsNotEmpty)
    else
      var salt :- Need(ReadString(options), NoSalt);
      var rounds :- Need(ReadUint32(salt.rest), NoRounds);
      Success(KdfBcrypt(salt.value, rounds.value))
  }

  /** Exactly one key is accepted. */
  function LoadKeys(encrypted: bool, kdf: Kdf, data: seq<Byte>): Result<Loaded> {
    var nkeys :- Need(ReadUint32(data), NoKeyCount);
    var _ :- Check(nkeys.value == 1, MultipleKeys);
    var pubkey :- Need(ReadString(nkeys.rest), NoPublicKey);
    var private :- Need(ReadString(pubkey.rest), NoPrivateSection);
    Success(Loaded(encrypted, kdf, pubkey.value, private.value))
  }

  function Load(file: seq<Byte>): Result<Loaded> {
    var _ :- Check(|file| >= 15 && file[..15] == Magic(), BadMagic);
    var c :- LoadCipher(file[15..]);
    LoadKeys(c.value.0, c.value.1, c.rest)
  }

  method NewLoad(file: seq<Byte>) returns (r: Result<Loaded>)
    ensures r == Load(file)
  {
    if |file| < 15 || file[..15] != Magic() {
      return Failure(BadMagic);
    }
    var cursor := new Cursor(file[15..]);
    var c := NewLoadCipher(cursor);
    if c.Failure? {
      return Failure(c.error);
    }
    r := NewLoadKeys(cursor, c.value.0, c.value.1);
  }

  method NewLoadCipher(cursor: Cursor) returns (r: Result<(bool, Kdf)>)
    modifies cursor
    ensures match LoadCipher(old(cursor.data))
      case Failure(e) => r == Failure(e)
      case Success(p) => r == Success(p.value) && cursor.data == p.rest
  {
    hide ReadString, ReadUint32;
    var cipher := cursor.GetString();
    if cipher == None {
      return Failure(NoCipher);
    }
    if cipher.value != Ascii("none") && cipher.value != Ascii("aes256-cbc") {
      return Failure(UnknownCipher);
    }
    var kdf := cursor.GetString();
    if kdf == None {
      return Failure(NoKdf);
    }
    if kdf.value != Ascii("none") && kdf.value != Ascii("bcrypt") {
      return Failure(UnknownKdf);
    }
    var options := cursor.GetString();
    if options == None {
      return Failure(NoKdfOptions);
    }
    var k := NewLoadKdf(kdf.value == Ascii("none"), options.value);
    if k.Failure? {
      return Failure(k.error);
    }
    return Success((cipher.value != Ascii("none"), k.value));
  }

  method NewLoadKdf(none: bool, options: seq<Byte>) returns (r: Result<Kdf>)
    ensures r == LoadKdf(none, options)
  {
    hide ReadString, ReadUint32;
    if none {
      return if options == [] then Success(KdfNone) else Failure(OptionsNotEmpty);
    }
    var cursor := new Cursor(options);
    var salt := cursor.GetString();
    if salt == None {
      return Failure(NoSalt);
    }
    var rounds := cursor.GetUint32();
    if rounds == None {
      return Failure(NoRounds);
    }
    return Success(KdfBcrypt(salt.value, rounds.value));
  }

  method NewLoadKeys(cursor: Cursor, encrypted: bool, kdf: Kdf) returns (r: Result<Loaded>)
    modifies cursor
    ensures r == LoadKeys(encrypted, kdf, old(cursor.data))
  {
    hide ReadString, ReadUint32;
    var nkeys := cursor.GetUint32();
    if nkeys == None {
      return Failure(NoKeyCount);
    }
    if nkeys.value != 1 {
      return Failure(MultipleKeys);
    }
    var pubkey := cursor.GetString();
    if pubkey == None {
      return Failure(NoPublicKey);
    }
    var private := cursor.GetString();
    if private == None {
      return Failure(NoPrivateSection);
    }
    return Success(Loaded(encrypted, kdf, pubkey.value, private.value));
  }

  // ------------------------------------------------------------------
  // The reader of the private section

  /** What is known of a key type by its name: how many strings its private part has. */
  type KeyTypes = seq<Byte> -> Option<nat>

  /** A C string: up to the first zero byte. */
  function CString(s: seq<Byte>): seq<Byte> {
    if s == [] || s[0] == 0 then [] else [s[0]] + CString(s[1..])
  }

  function ReadPieces(data: seq<Byte>, n: nat, found: seq<seq<Byte>>): Result<Parsed<seq<seq<Byte>>>> {
    if n == 0 then Success(Parsed(found, data))
    else
      match ReadString(data)
      case None => Failure(KeyTooShort)
      case Some(p) => ReadPieces(p.rest, n - 1, found + [p.value])
  }

  /** The reader's test of the padding. */
  predicate PaddingMatches(pad: seq<Byte>) {
    forall i :: 0 <= i < |pad| ==> pad[i] == (i + 1) % 256
  }

  datatype ReadKey = ReadKey(name: seq<Byte>, pieces: seq<seq<Byte>>, comment: seq<Byte>)

  function ReadSection(section: seq<Byte>, types: KeyTypes): Result<ReadKey> {
    var check0 :- Need(ReadUint32(section), CheckFailed);
    var check1 :- Need(ReadUint32(check0.rest), CheckFailed);
    var _ :- Check(check0.value == check1.value, CheckFailed);
    var name :- Need(ReadString(check1.rest), NoKeyType);
    ReadKeyBody(CString(name.value), name.rest, types)
  }

  function ReadKeyBody(name: seq<Byte>, data: seq<Byte>, types: KeyTypes): Result<ReadKey> {
    var npieces :- Need(types(name), UnknownKeyType);
    var pieces :- ReadPieces(data, npieces, []);
    var comment :- Need(ReadString(pieces.rest), NoComment);
    var _ :- Check(PaddingMatches(comment.rest), BadPadding);
    Success(ReadKey(name, pieces.value, CString(comment.value)))
  }

  function Read(l: Loaded, dec: Cipher, types: KeyTypes): Result<ReadKey> {
    if !l.encrypted then ReadSection(l.privatestr, types)
    else if |l.privatestr| % 16 != 0 then Failure(NotWholeBlocks)
    else ReadSection(dec(l.kdf, l.privatestr), types)
  }

  method NewRead(l: Loaded, dec: Cipher, types: KeyTypes) returns (r: Result<ReadKey>)
    ensures r == Read(l, dec, types)
  {
    var section := l.privatestr;
    if l.encrypted {
      if |section| % 16 != 0 {
        return Failure(NotWholeBlocks);
      }
      section := dec(l.kdf, section);
    }
    r := NewReadSection(section, types);
  }

  method NewReadSection(section: seq<Byte>, types: KeyTypes) returns (r: Result<ReadKey>)
    ensures r == ReadSection(section, types)
  {
    hide ReadString, ReadUint32, ReadKeyBody;
    var cursor := new Cursor(section);
    var check0 := cursor.GetUint32();
    if check0 == None {
      return Failure(CheckFailed);
    }
    var check1 := cursor.GetUint32();
    if check1 == None || check0.value != check1.value {
      return Failure(CheckFailed);
    }
    var name := cursor.GetString();
    if name == None {
      return Failure(NoKeyType);
    }
    r := NewReadKeyBody(cursor, CString(name.value), types);
  }

  method NewReadPieces(cursor: Cursor, npieces: nat) returns (r: Result<seq<seq<Byte>>>)
    modifies cursor
    ensures match ReadPieces(old(cursor.data), npieces, [])
      case Failure(e) => r == Failure(e)
      case Success(p) => r == Success(p.value) && cursor.data == p.rest
  {
    hide ReadString;
    var pieces: seq<seq<Byte>>, i := [], 0;
    while i < npieces
      invariant 0 <= i <= npieces
      invariant ReadPieces(cursor.data, npieces - i, pieces) == ReadPieces(old(cursor.data), npieces, [])
    {
      var piece := cursor.GetString();
      if piece == None {
        return Failure(KeyTooShort);
      }
      pieces := pieces + [piece.value];
      i := i + 1;
    }
    return Success(pieces);
  }

  method CheckPadding(pad: seq<Byte>) returns (ok: bool)
    ensures ok == PaddingMatches(pad)
  {
    var i := 0;
    while i < |pad|
      invariant 0 <= i <= |pad|
      invariant forall q :: 0 <= q < i ==> pad[q] == (q + 1) % 256
    {
      if pad[i] != (i + 1) % 256 {
        return false;
      }
      i := i + 1;
    }
    return true;
  }

  method NewReadKeyBody(cursor: Cursor, name: seq<Byte>, types: KeyTypes) returns (r: Result<ReadKey>)
    modifies cursor
    ensures r == ReadKeyBody(name, old(cursor.data), types)
  {
    hide ReadString, ReadPieces, PaddingMatches;
    var npieces := types(name);
    if npieces == None {
      return Failure(UnknownKeyType);
    }
    var pieces := NewReadPieces(cursor, npieces.value);
    if pieces.Failure? {
      return Failure(pieces.error);
    }
    var comment := cursor.GetString();
    if comment == None {
      return Failure(NoComment);
    }
    var ok := CheckPadding(cursor.data);
    if !ok {
      return Failure(BadPadding);
    }
    return Success(ReadKey(name, pieces.value, CString(comment.value)));
  }

  // ------------------------------------------------------------------
  // The round trip

  lemma {:induction false} CStringWhole(s: seq<Byte>)
    requires 0 !in s
    ensures CString(s) == s
  {
    if s != [] {
      CStringWhole(s[1..]);
    }
  }

  predicate Small(s: seq<Byte>) {
    |s| < 0x1_0000_0000
  }

  lemma {:induction false} ReadPiecesBack(pieces: seq<seq<Byte>>, rest: seq<Byte>, found: seq<seq<Byte>>)
    requires forall i :: 0 <= i < |pieces| ==> Small(pieces[i])
    ensures ReadPieces(SshStrings(pieces) + rest, |pieces|, found) == Success(Parsed(found + pieces, rest))
  {
    hide SshString, ReadString;
    if pieces == [] {
      assert found + pieces == found && SshStrings(pieces) + rest == rest;
    } else {
      var tail := SshStrings(pieces[1..]) + rest;
      ReadStringBack(pieces[0], tail);
      ConcatAssoc(SshString(pieces[0]), SshStrings(pieces[1..]), rest);
      ReadPiecesBack(pieces[1..], rest, found + [pieces[0]]);
      assert found + [pieces[0]] + pieces[1..] == found + pieces;
    }
  }

  predicate ValidKey(k: NewKey) {
    && Small(k.name) && Small(k.pub) && Small(k.comment)
    && (forall i :: 0 <= i < |k.pieces| ==> Small(k.pieces[i]))
    && 0 !in k.name && 0 !in k.comment
  }

  /** Whatever padding the writer added passes the reader's test. */
  lemma PaddingAccepted(len: nat)
    ensures PaddingMatches(Padding(len))
  {
  }

  lemma ReadSectionBack(k: NewKey, checkint: nat, types: KeyTypes)
    requires ValidKey(k) && types(k.name) == Some(|k.pieces|)
    ensures ReadSection(Section(k, checkint), types) == Success(ReadKey(k.name, k.pieces, k.comment))
  {
    hide SshString, ReadString, ReadUint32, ReadPieces, Put32, PaddingMatches, Padding;
    var pad := Padding(|SectionBody(k, checkint)|);
    var afterPieces := SshString(k.comment) + pad;
    var afterName := SshStrings(k.pieces) + afterPieces;
    var afterCheck := SshString(k.name) + afterName;
    assert Section(k, checkint) == Put32(checkint) + (Put32(checkint) + afterCheck);
    ReadUint32Back(checkint, Put32(checkint) + afterCheck);
    ReadUint32Back(checkint, afterCheck);
    ReadStringBack(k.name, afterName);
    CStringWhole(k.name);
    ReadPiecesBack(k.pieces, afterPieces, []);
    assert [] + k.pieces == k.pieces;
    ReadStringBack(k.comment, pad);
    PaddingAccepted(|SectionBody(k, checkint)|);
    CStringWhole(k.comment);
  }

  lemma LoadCipherBack(protection: Protection, rest: seq<Byte>)
    requires ValidProtection(protection)
    ensures LoadCipher(CipherFields(protection) + rest)
      == Success(Parsed((protection.WithPassphrase?, KdfOf(protection)), rest))
  {
    hide SshString, ReadString, ReadUint32, Put32;
    assert Ascii("none")[0] == 'n' as int && Ascii("aes256-cbc")[0] == 'a' as int && Ascii("bcrypt")[0] == 'b' as int;
    match protection
    case Plain =>
      var none := Ascii("none");
      assert CipherFields(protection) + rest == SshString(none) + (SshString(none) + (SshString([]) + rest));
      ReadStringBack(none, SshString(none) + (SshString([]) + rest));
      ReadStringBack(none, SshString([]) + rest);
      ReadStringBack([], rest);
    case WithPassphrase(salt) =>
      var aes, bcrypt, options := Ascii("aes256-cbc"), Ascii("bcrypt"), SshString(salt) + Put32(ROUNDS);
      assert CipherFields(protection) + rest == SshString(aes) + (SshString(bcrypt) + (SshString(options) + rest));
      ReadStringBack(aes, SshString(bcrypt) + (SshString(options) + rest));
      ReadStringBack(bcrypt, SshString(options) + rest);
      ReadStringBack(options, rest);
      ReadStringBack(salt, Put32(ROUNDS));
      ReadUint32Back(ROUNDS, []);
      assert Put32(ROUNDS) + [] == Put32(ROUNDS);
  }

  lemma LoadBack(k: NewKey, checkint: nat, protection: Protection, enc: Cipher)
    requires ValidKey(k) && ValidProtection(protection) && Small(Protected(k, checkint, protection, enc))
    ensures Load(File(k, checkint, protection, enc)) == Success(
      Loaded(protection.WithPassphrase?,
             if protection.Plain? then KdfNone else KdfBcrypt(protection.salt, 16),
             k.pub, Protected(k, checkint, protection, enc)))
  {
    hide SshString, ReadString, ReadUint32, Put32, CipherFields, LoadCipher, Protected;
    var private := Protected(k, checkint, protection, enc);
    var afterKeys := SshString(k.pub) + SshString(private);
    var keys := Put32(1) + afterKeys;
    var file := File(k, checkint, protection, enc);
    assert file == Magic() + (CipherFields(protection) + keys);
    assert file[..15] == Magic() && file[15..] == CipherFields(protection) + keys;
    LoadCipherBack(protection, keys);
    ReadUint32Back(1, afterKeys);
    ReadStringBack(k.pub, SshString(private));
    ReadStringBack(private, []);
    assert SshString(private) + [] == SshString(private);
  }

  /** Loading and reading a written file gives back every part of the key, through any cipher that can be undone. */
  lemma NewRoundTrip(k: NewKey, checkint: nat, protection: Protection, enc: Cipher, dec: Cipher, types: KeyTypes)
    requires ValidKey(k) && ValidProtection(protection) && Small(Section(k, checkint))
    requires types(k.name) == Some(|k.pieces|)
    requires KeepsLength(enc, Section(k, checkint), KdfOf(protection))
    requires dec(KdfOf(protection), enc(KdfOf(protection), Section(k, checkint))) == Section(k, checkint)
    ensures var loaded := Load(File(k, checkint, protection, enc));
      && loaded.Success? && loaded.value.pub == k.pub
      && Read(loaded.value, dec, types) == Success(ReadKey(k.name, k.pieces, k.comment))
  {
    hide Section, SectionBody, Load, File, ReadSection;
    LoadBack(k, checkint, protection, enc);
    ReadSectionBack(k, checkint, types);
  }

  // ------------------------------------------------------------------
  // What is accepted

  /** The part before the first zero byte. */
  lemma {:induction false} CStringMeans(s: seq<Byte>)
    ensures var c := CString(s); c <= s && 0 !in c && (|c| < |s| ==> s[|c|] == 0)
  {
    if s != [] && s[0] != 0 {
      CStringMeans(s[1..]);
      assert s == [s[0]] + s[1..];
    }
  }

  /** Two equal check words, a type name, the strings of the key, a comment and the padding 1, 2, 3, ... */
  predicate IsSection(section: seq<Byte>, check: seq<Byte>, name: seq<Byte>, pieces: seq<seq<Byte>>,
                      comment: seq<Byte>, pad: seq<Byte>) {
    && |check| == 4 && Small(name) && Small(comment) && (forall i :: 0 <= i < |pieces| ==> Small(pieces[i]))
    && section == check + (check + (SshString(name) + (SshStrings(pieces) + (SshString(comment) + pad))))
    && forall i :: 0 <= i < |pad| ==> pad[i] == (i + 1) % 256
  }

  lemma {:induction false} ReadPiecesOnly(data: seq<Byte>, n: nat, found: seq<seq<Byte>>)
    requires ReadPieces(data, n, found).Success?
    ensures var p := ReadPieces(data, n, found).value;
      && found <= p.value && |p.value| == |found| + n
      && data == SshStrings(p.value[|found|..]) + p.rest
      && forall i :: |found| <= i < |p.value| ==> Small(p.value[i])
    decreases n
  {
    hide ReadString, SshString;
    if n == 0 {
      assert SshStrings(found[|found|..]) == [];
    } else {
      var first := ReadString(data).value;
      ReadStringOnly(data);
      ReadPiecesOnly(first.rest, n - 1, found + [first.value]);
      var p := ReadPieces(data, n, found).value;
      assert p.value[|found|] == first.value;
      assert p.value[|found|..][1..] == p.value[|found| + 1..];
      ConcatAssoc(SshString(first.value), SshStrings(p.value[|found| + 1..]), p.rest);
    }
  }

  /** The check words decide first: what is too short or has two different ones fails the check, nothing else does. */
  lemma CheckFailedIff(section: seq<Byte>, types: KeyTypes)
    ensures ReadSection(section, types) == Failure(CheckFailed) <==> |section| < 8 || section[..4] != section[4..8]
  {
    hide ReadKeyBody, Put32, Get32, ReadString;
    if |section| >= 8 {
      ReadUint32Only(section);
      ReadUint32Only(section[4..]);
      assert section[4..][..4] == section[4..8];
      SameWord(section, section[4..]);
      var name := ReadString(section[8..]);
      assert section[4..][4..] == section[8..];
      if name.Some? {
        BodyErrors(CString(name.value.value), name.value.rest, types);
      }
    }
  }

  lemma SameWord(a: seq<Byte>, b: seq<Byte>)
    requires |a| >= 4 && |b| >= 4
    ensures a[..4] == b[..4] ==> Get32(a) == Get32(b)
  {
    if a[..4] == b[..4] {
      assert a[0] == a[..4][0] && a[1] == a[..4][1] && a[2] == a[..4][2] && a[3] == a[..4][3];
    }
  }

  lemma {:induction false} PieceErrors(data: seq<Byte>, n: nat, found: seq<seq<Byte>>)
    ensures var r := ReadPieces(data, n, found); r.Failure? ==> r.error == KeyTooShort
    decreases n
  {
    hide ReadString;
    if n > 0 && ReadString(data).Some? {
      PieceErrors(ReadString(data).value.rest, n - 1, found + [ReadString(data).value.value]);
    }
  }

  lemma BodyErrors(name: seq<Byte>, data: seq<Byte>, types: KeyTypes)
    ensures ReadKeyBody(name, data, types) != Failure(CheckFailed)
  {
    hide ReadString, ReadPieces, PaddingMatches;
    if types(name).Some? {
      PieceErrors(data, types(name).value, []);
    }
  }

  /** What the body of an accepted section consists of. */
  lemma BodyOnly(name: seq<Byte>, data: seq<Byte>, types: KeyTypes)
    returns (pieces: seq<seq<Byte>>, comment: seq<Byte>, pad: seq<Byte>)
    requires ReadKeyBody(name, data, types).Success?
    ensures ReadKeyBody(name, data, types) == Success(ReadKey(name, pieces, CString(comment)))
    ensures types(name) == Some(|pieces|) && Small(comment) && (forall i :: 0 <= i < |pieces| ==> Small(pieces[i]))
    ensures data == SshStrings(pieces) + (SshString(comment) + pad)
    ensures forall i :: 0 <= i < |pad| ==> pad[i] == (i + 1) % 256
  {
    hide ReadString, ReadPieces, SshString, SshStrings, CString;
    var p := ReadPieces(data, types(name).value, []).value;
    ReadPiecesOnly(data, types(name).value, []);
    ReadStringOnly(p.rest);
    pieces, comment, pad := p.value, ReadString(p.rest).value.value, ReadString(p.rest).value.rest;
    assert p.value[0..] == p.value;
  }

  lemma BodyBack(name: seq<Byte>, pieces: seq<seq<Byte>>, comment: seq<Byte>, pad: seq<Byte>, types: KeyTypes)
    requires types(name) == Some(|pieces|) && Small(comment) && (forall i :: 0 <= i < |pieces| ==> Small(pieces[i]))
    requires forall i :: 0 <= i < |pad| ==> pad[i] == (i + 1) % 256
    ensures ReadKeyBody(name, SshStrings(pieces) + (SshString(comment) + pad), types)
      == Success(ReadKey(name, pieces, CString(comment)))
  {
    hide ReadString, ReadPieces, SshString, SshStrings, CString;
    ReadPiecesBack(pieces, SshString(comment) + pad, []);
    assert [] + pieces == pieces;
    ReadStringBack(comment, pad);
  }

  lemma SectionBack(section: seq<Byte>, types: KeyTypes, check: seq<Byte>, name: seq<Byte>, pieces: seq<seq<Byte>>,
                    comment: seq<Byte>, pad: seq<Byte>)
    requires IsSection(section, check, name, pieces, comment, pad) && types(CString(name)) == Some(|pieces|)
    ensures ReadSection(section, types) == Success(ReadKey(CString(name), pieces, CString(comment)))
  {
    hide ReadString, ReadKeyBody, SshString, SshStrings, CString, Put32, Get32, ReadUint32;
    var body := SshStrings(pieces) + (SshString(comment) + pad);
    BodyBack(CString(name), pieces, comment, pad, types);
    Put32Get32(check);
    var n := Get32(check);
    ReadUint32Back(n, check + (SshString(name) + body));
    ReadUint32Back(n, SshString(name) + body);
    ReadStringBack(name, body);
  }

  lemma SectionOnly(section: seq<Byte>, types: KeyTypes, key: ReadKey)
    requires ReadSection(section, types) == Success(key)
    ensures exists check, name, pieces, comment, pad ::
      && IsSection(section, check, name, pieces, comment, pad)
      && types(CString(name)) == Some(|pieces|) && key == ReadKey(CString(name), pieces, CString(comment))
  {
    hide ReadString, ReadKeyBody, SshString, SshStrings, CString, Put32, Get32, ReadUint32;
    ReadUint32Only(section);
    var c0 := ReadUint32(section).value;
    ReadUint32Only(c0.rest);
    var c1 := ReadUint32(c0.rest).value;
    ReadStringOnly(c1.rest);
    var n := ReadString(c1.rest).value;
    var pieces, comment, pad := BodyOnly(CString(n.value), n.rest, types);
    assert IsSection(section, Put32(c0.value), n.value, pieces, comment, pad);
  }

  /** The text that is read: what the file holds, or what deciphering makes of it. */
  function PlainText(l: Loaded, dec: Cipher): seq<Byte> {
    if l.encrypted then dec(l.kdf, l.privatestr) else l.privatestr
  }

  /** A key is accepted exactly if its section is whole blocks when enciphered, and of that form. */
  lemma ReadAcceptsIff(l: Loaded, dec: Cipher, types: KeyTypes, key: ReadKey)
    ensures Read(l, dec, types) == Success(key) <==>
      && (l.encrypted ==> |l.privatestr| % 16 == 0)
      && exists check, name, pieces, comment, pad ::
           && IsSection(PlainText(l, dec), check, name, pieces, comment, pad)
           && types(CString(name)) == Some(|pieces|) && key == ReadKey(CString(name), pieces, CString(comment))
  {
    hide ReadSection, IsSection, CString;
    var section := PlainText(l, dec);
    if ReadSection(section, types) == Success(key) {
      SectionOnly(section, types, key);
    }
    forall check, name, pieces, comment, pad | IsSection(section, check, name, pieces, comment, pad)
        && types(CString(name)) == Some(|pieces|) && key == ReadKey(CString(name), pieces, CString(comment))
      ensures ReadSection(section, types) == Success(key)
    {
      SectionBack(section, types, check, name, pieces, comment, pad);
    }
  }

  // ------------------------------------------------------------------
  // What is loaded

  /** The options of a key derivation: none at all, or a salt and a number of rounds and whatever follows. */
  predicate OptionsAre(kdfName: seq<Byte>, options: seq<Byte>, kdf: Kdf) {
    match kdf
    case KdfNone => kdfName == Ascii("none") && options == []
    case KdfBcrypt(salt, rounds) =>
      && kdfName == Ascii("bcrypt") && Small(salt) && rounds < 0x1_0000_0000
      && SshString(salt) + Put32(rounds) <= options
  }

  /** The magic text, cipher, key derivation with its options, one key, and its private section. */
  predicate IsFile(file: seq<Byte>, cipher: seq<Byte>, kdfName: seq<Byte>, options: seq<Byte>,
                   l: Loaded, rest: seq<Byte>)
  {
    && file == Ascii("openssh-key-v1") + [0] + (SshString(cipher) + (SshString(kdfName) + (SshString(options)
         + (Put32(1) + (SshString(l.pub) + (SshString(l.privatestr) + rest))))))
    && cipher == (if l.encrypted then Ascii("aes256-cbc") else Ascii("none"))
    && OptionsAre(kdfName, options, l.kdf)
    && Small(options) && Small(l.pub) && Small(l.privatestr)
  }

  lemma KdfIff(none: bool, options: seq<Byte>, kdf: Kdf)
    ensures LoadKdf(none, options) == Success(kdf) <==>
      OptionsAre(if none then Ascii("none") else Ascii("bcrypt"), options, kdf)
  {
    hide ReadString, ReadUint32, Put32, SshString, Get32;
    NamesDiffer();
    if !none && LoadKdf(none, options).Success? {
      ReadStringOnly(options);
      ReadUint32Only(ReadString(options).value.rest);
      var salt, tail := ReadString(options).value.value, ReadString(options).value.rest;
      var rounds := ReadUint32(tail).value;
      assert options == SshString(salt) + Put32(rounds.value) + rounds.rest;
    }
    if !none && OptionsAre(Ascii("bcrypt"), options, kdf) {
      var tail := options[|SshString(kdf.salt) + Put32(kdf.rounds)|..];
      assert options == SshString(kdf.salt) + (Put32(kdf.rounds) + tail);
      ReadStringBack(kdf.salt, Put32(kdf.rounds) + tail);
      ReadUint32Back(kdf.rounds, tail);
    }
  }

  lemma NamesDiffer()
    ensures Ascii("none") != Ascii("bcrypt") && Ascii("none") != Ascii("aes256-cbc")
    ensures Small(Ascii("none")) && Small(Ascii("bcrypt")) && Small(Ascii("aes256-cbc"))
  {
    assert |"none"| == 4 && |"bcrypt"| == 6 && |"aes256-cbc"| == 10;
  }

  lemma CipherBack(encrypted: bool, kdfName: seq<Byte>, options: seq<Byte>, kdf: Kdf, rest: seq<Byte>)
    requires OptionsAre(kdfName, options, kdf) && Small(options)
    ensures LoadCipher(SshString(if encrypted then Ascii("aes256-cbc") else Ascii("none"))
                       + (SshString(kdfName) + (SshString(options) + rest)))
      == Success(Parsed((encrypted, kdf), rest))
  {
    hide ReadString, ReadUint32, Put32, SshString, LoadKdf, Ascii;
    NamesDiffer();
    var cipher := if encrypted then Ascii("aes256-cbc") else Ascii("none");
    ReadStringBack(cipher, SshString(kdfName) + (SshString(options) + rest));
    ReadStringBack(kdfName, SshString(options) + rest);
    ReadStringBack(options, rest);
    KdfIff(kdfName == Ascii("none"), options, kdf);
  }

  lemma CipherOnly(data: seq<Byte>) returns (kdfName: seq<Byte>, options: seq<Byte>)
    requires LoadCipher(data).Success?
    ensures var p := LoadCipher(data).value;
      && data == SshString(if p.value.0 then Ascii("aes256-cbc") else Ascii("none"))
                 + (SshString(kdfName) + (SshString(options) + p.rest))
      && OptionsAre(kdfName, options, p.value.1) && Small(options)
  {
    hide ReadString, ReadUint32, Put32, SshString, LoadKdf, Ascii, OptionsAre;
    NamesDiffer();
    var cipher := ReadString(data).value;
    ReadStringOnly(data);
    var kdf := ReadString(cipher.rest).value;
    ReadStringOnly(cipher.rest);
    var opts := ReadString(kdf.rest).value;
    ReadStringOnly(kdf.rest);
    kdfName, options := kdf.value, opts.value;
    KdfIff(kdfName == Ascii("none"), options, LoadCipher(data).value.value.1);
  }

  lemma KeysIff(encrypted: bool, kdf: Kdf, data: seq<Byte>, l: Loaded)
    ensures LoadKeys(encrypted, kdf, data) == Success(l) <==>
      && l.encrypted == encrypted && l.kdf == kdf && Small(l.pub) && Small(l.privatestr)
      && Put32(1) + (SshString(l.pub) + SshString(l.privatestr)) <= data
  {
    hide ReadString, ReadUint32, Put32, SshString, Get32;
    if LoadKeys(encrypted, kdf, data).Success? {
      ReadUint32Only(data);
      var afterCount := ReadUint32(data).value.rest;
      ReadStringOnly(afterCount);
      ReadStringOnly(ReadString(afterCount).value.rest);
      var pub, priv := ReadString(afterCount).value, ReadString(ReadString(afterCount).value.rest).value;
      assert data == Put32(1) + (SshString(pub.value) + SshString(priv.value)) + priv.rest;
    }
    if Small(l.pub) && Small(l.privatestr) && Put32(1) + (SshString(l.pub) + SshString(l.privatestr)) <= data {
      var rest := data[|Put32(1) + (SshString(l.pub) + SshString(l.privatestr))|..];
      assert data == Put32(1) + (SshString(l.pub) + (SshString(l.privatestr) + rest));
      ReadUint32Back(1, SshString(l.pub) + (SshString(l.privatestr) + rest));
      ReadStringBack(l.pub, SshString(l.privatestr) + rest);
      ReadStringBack(l.privatestr, rest);
    }
  }

  /** A file is loaded exactly if it is of that form, whatever follows. */
  lemma LoadAcceptsIff(file: seq<Byte>, l: Loaded)
    ensures Load(file) == Success(l) <==>
      exists cipher, kdfName, options, rest :: IsFile(file, cipher, kdfName, options, l, rest)
  {
    hide LoadCipher, LoadKeys, SshString, Put32, Ascii, IsFile;
    if Load(file) == Success(l) {
      FileOnly(file, l);
    }
    forall cipher, kdfName, options, rest | IsFile(file, cipher, kdfName, options, l, rest)
      ensures Load(file) == Success(l)
    {
      FileBack(file, cipher, kdfName, options, l, rest);
    }
  }

  lemma FileOnly(file: seq<Byte>, l: Loaded)
    requires Load(file) == Success(l)
    ensures exists cipher, kdfName, options, rest :: IsFile(file, cipher, kdfName, options, l, rest)
  {
    hide LoadCipher, LoadKeys, SshString, Put32, Ascii, OptionsAre;
    var kdfName, options := CipherOnly(file[15..]);
    var c := LoadCipher(file[15..]).value;
    KeysIff(c.value.0, c.value.1, c.rest, l);
    var rest := c.rest[|Put32(1) + (SshString(l.pub) + SshString(l.privatestr))|..];
    assert c.rest == Put32(1) + (SshString(l.pub) + (SshString(l.privatestr) + rest));
    assert file == file[..15] + file[15..];
    assert IsFile(file, if l.encrypted then Ascii("aes256-cbc") else Ascii("none"), kdfName, options, l, rest);
  }

  lemma FileBack(file: seq<Byte>, cipher: seq<Byte>, kdfName: seq<Byte>, options: seq<Byte>, l: Loaded, rest: seq<Byte>)
    requires IsFile(file, cipher, kdfName, options, l, rest)
    ensures Load(file) == Success(l)
  {
    hide LoadCipher, LoadKeys, SshString, Put32, Ascii, OptionsAre;
    var keys := Put32(1) + (SshString(l.pub) + (SshString(l.privatestr) + rest));
    CipherBack(l.encrypted, kdfName, options, l.kdf, keys);
    KeysIff(l.encrypted, l.kdf, keys, l);
    assert keys == Put32(1) + (SshString(l.pub) + SshString(l.privatestr)) + rest;
    assert |Ascii("openssh-key-v1") + [0]| == 15;
    assert file[..15] == Ascii("openssh-key-v1") + [0];
  }

  /** Without the magic text nothing else is looked at. */
  lemma BadMagicIff(file: seq<Byte>)
    ensures Load(file) == Failure(BadMagic) <==> !(Ascii("openssh-key-v1") + [0] <= file)
  {
    hide ReadString, ReadUint32, Ascii;
    assert |Ascii("openssh-key-v1") + [0]| == 15;
    assert |file| >= 15 ==> (file[..15] == Magic() <==> Magic() <= file);
    if |file| >= 15 && LoadCipher(file[15..]).Success? {
      hide LoadCipher;
      var c := LoadCipher(file[15..]).value;
      assert LoadKeys(c.value.0, c.value.1, c.rest) != Failure(BadMagic);
    }
  }
}
