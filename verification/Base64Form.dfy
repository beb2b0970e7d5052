/**
 The alphabet of base64 and the place of each bit (section 4 of RFC 4648), and exactly which
 groups of four the decoder accepts.
 */
module Base64Form {
  import opened Bytes
  import opened Base64

  const UPPER: string := "ABCDEFGHIJKLMNOPQRSTUVWXYZ"
  const LOWER: string := "abcdefghijklmnopqrstuvwxyz"
  const OTHER: string := "0123456789+/"
  const ALPHABET: string := UPPER + LOWER + OTHER

  lemma UpperLetters(v: nat)
    requires v < 26
    ensures |UPPER| == 26 && UPPER[v] as int == 'A' as int + v
  {
  }

  lemma LowerLetters(v: nat)
    requires v < 26
    ensures |LOWER| == 26 && LOWER[v] as int == 'a' as int + v
  {
  }

  lemma OtherCharacters(v: nat)
    requires v < 12
    ensures |OTHER| == 12
    ensures v < 10 ==> OTHER[v] as int == '0' as int + v
    ensures v == 10 ==> OTHER[v] == '+'
    ensures v == 11 ==> OTHER[v] == '/'
  {
  }

  lemma AlphabetParts()
    ensures |UPPER| == 26 && |LOWER| == 26 && |OTHER| == 12 && |ALPHABET| == 64
  {
  }

  /** The encoder and the decoder use the same alphabet, and that is the standard one. */
  lemma AlphabetIs(v: nat)
    requires v < 64
    ensures |ALPHABET| == 64 && Char64(v) == ALPHABET[v] && Value64(ALPHABET[v]) == v
  {
    AlphabetParts();
    hide UPPER, LOWER, OTHER;
    if v < 26 {
      UpperLetters(v);
      assert ALPHABET[v] == UPPER[v];
    } else if v < 52 {
      LowerLetters(v - 26);
      assert ALPHABET[v] == LOWER[v - 26];
    } else {
      OtherCharacters(v - 52);
      assert ALPHABET[v] == OTHER[v - 52];
    }
  }

  /** `c` is the character for `v`. */
  predicate Stands(c: char, v: nat) {
    v < |ALPHABET| && ALPHABET[v] == c
  }

  lemma StandsIff(c: char, v: nat)
    ensures Stands(c, v) <==> v < 64 && Value64(c) == v
  {
    hide ALPHABET;
    AlphabetParts();
    if v < 64 {
      AlphabetIs(v);
      if Value64(c) == v {
        SameCharacter(c, v);
      }
    }
  }

  lemma SameCharacter(c: char, v: nat)
    requires v < 64 && Value64(c) == v
    ensures c == Char64(v)
  {
  }

  // ------------------------------------------------------------------
  // Groups of four

  /** Three bytes are four characters, from the highest bits down; two are three, one is two, filled up with zeros. */
  lemma AtomMeans(data: seq<Byte>)
    requires 1 <= |data| <= 3
    ensures var c := EncodeAtom(data);
      exists v0: nat, v1: nat :: Stands(c[0], v0) && Stands(c[1], v1) &&
        if |data| == 1 then
          c[2] == '=' && c[3] == '=' && 64 * v0 + v1 == 16 * data[0] as int
        else
          exists v2: nat :: Stands(c[2], v2) &&
            if |data| == 2 then
              c[3] == '=' && 0x1000 * v0 + 64 * v1 + v2 == 4 * (0x100 * data[0] as int + data[1])
            else
              exists v3: nat :: Stands(c[3], v3) &&
                0x4_0000 * v0 + 0x1000 * v1 + 64 * v2 + v3 ==
                  0x1_0000 * data[0] as int + 0x100 * data[1] as int + data[2]
  {
    hide Stands, Char64;
    var w, c := Word(data), EncodeAtom(data);
    var v0, v1, v2, v3 := w / 0x4_0000 % 64, w / 0x1000 % 64, w / 64 % 64, w % 64;
    CharStands(v0);
    CharStands(v1);
    CharStands(v2);
    CharStands(v3);
    SixBits(w);
    assert Stands(c[0], v0) && Stands(c[1], v1);
    if |data| > 1 {
      assert Stands(c[2], v2);
    }
    if |data| > 2 {
      assert Stands(c[3], v3);
    }
  }

  lemma CharStands(v: nat)
    requires v < 64
    ensures Stands(Char64(v), v)
  {
    AlphabetIs(v);
  }

  /** Characters of the alphabet, of which the last two, or the last, may be the padding character. */
  predicate IsGroup(atom: seq<char>) {
    && |atom| == 4 && Value64(atom[0]) >= 0 && Value64(atom[1]) >= 0
    && (Value64(atom[3]) >= 0 ==> Value64(atom[2]) >= 0)
    && (atom[2] == '=' || Value64(atom[2]) >= 0) && (atom[3] == '=' || Value64(atom[3]) >= 0)
  }

  /** Exactly such groups are decoded, to three bytes or as many less as there are padding characters. */
  lemma AtomAcceptedIff(atom: seq<char>)
    requires |atom| == 4
    ensures DecodeAtom(atom) != [] <==> IsGroup(atom)
    ensures IsGroup(atom) ==>
      |DecodeAtom(atom)| == 3 - (if atom[2] == '=' then 1 else 0) - (if atom[3] == '=' then 1 else 0)
  {
  }

  /** The decoder accepts a text exactly if it accepts each of its complete groups. */
  lemma {:induction false} DecodesIff(chars: seq<char>, blob: seq<Byte>)
    ensures Decode(chars, blob).Some? <==>
      forall i :: 0 <= i < |chars| / 4 ==> IsGroup(Group(chars, i))
    decreases |chars|
  {
    hide IsGroup, DecodeAtom;
    if |chars| >= 4 {
      AtomAcceptedIff(chars[..4]);
      var rest, out := chars[4..], DecodeAtom(chars[..4]);
      assert Group(chars, 0) == chars[..4];
      forall i | 0 < i < |chars| / 4
        ensures Group(chars, i) == Group(rest, i - 1)
      {
      }
      forall i | 0 <= i < |rest| / 4
        ensures Group(rest, i) == Group(chars, i + 1)
      {
      }
      if out != [] {
        DecodesIff(rest, blob + out);
      }
    }
  }

  function Group(chars: seq<char>, i: nat): seq<char>
    requires i < |chars| / 4
  {
    chars[4 * i..4 * i + 4]
  }

  /** Of a line the loaders take the characters up to the first that is not base64. */
  lemma {:induction false} LinePrefix(line: seq<char>)
    ensures var n := |Prefix64(line)|;
      && n <= |line| && Prefix64(line) == line[..n]
      && (forall i :: 0 <= i < n ==> line[i] == '=' || Value64(line[i]) >= 0)
      && (n < |line| ==> line[n] != '=' && Value64(line[n]) < 0)
  {
    if line != [] && IsBase64(line[0]) {
      LinePrefix(line[1..]);
    }
  }
}
