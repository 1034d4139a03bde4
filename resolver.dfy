/**
  The resolver of kdt.py: the serial-to-model table (`getKindleModel`) and the
  unlock password derived from the MD5 hex digest of the serial
  (`getKindlePassword`).  MD5 itself (RFC 1321) is not modelled: every
  operation that needs it takes the digest function as a parameter.
 */
module Resolver {
  import opened Common

  /** The model names, keyed by the character at index 4 of the serial. */
  const ModelTable: map<char, string> := map[
    '1' := "Kindle 1",
    '2' := "Kindle 2 U.S.",
    '3' := "Kindle 2 international",
    '8' := "Kindle 3 WIFI",
    '6' := "Kindle 3 3G + WIFI U.S.",
    'A' := "Kindle 3 3G + WIFI European",
    '4' := "Kindle DX U.S.",
    '5' := "Kindle DX international",
    '9' := "Kindle DX Graphite"
  ]

  /** The keys the table knows, written out independently of the table. */
  const KnownKeys: seq<char> := "12345689A"

  /**
    `getKindleModel`: the model for the character at index 4, or `None`.
    Indexing a shorter serial raises in the source, hence the precondition.
   */
  function ModelOf(serial: string): (m: Option<string>)
    requires |serial| >= 5
    ensures m.Some? <==> serial[4] in KnownKeys
    ensures m.Some? ==> |m.value| > 7 && m.value[..7] == "Kindle "
  {
    if serial[4] in ModelTable then Some(ModelTable[serial[4]]) else None
  }

  type byte = x: int | 0 <= x < 256

  /** An MD5 digest: sixteen bytes. */
  type Digest = d: seq<byte> | |d| == 16 witness seq(16, i => 0)

  predicate IsLowerHexChar(c: char) {
    '0' <= c <= '9' || 'a' <= c <= 'f'
  }

  /** The value of a lower-case hex character. */
  function HexValue(c: char): (n: nat)
    requires IsLowerHexChar(c)
    ensures n < 16
  {
    if c <= '9' then c as int - '0' as int else c as int - 'a' as int + 10
  }

  /** The lower-case hex character for a nibble; `HexValue` undoes it. */
  function HexDigit(n: nat): (c: char)
    requires n < 16
    ensures IsLowerHexChar(c) && HexValue(c) == n
  {
    if n < 10 then ('0' as int + n) as char else ('a' as int + n - 10) as char
  }

  /** `hexdigest()`: two lower-case hex characters per byte, high nibble first. */
  function HexDigest(d: seq<byte>): (h: string)
    ensures |h| == 2 * |d|
    ensures forall i :: 0 <= i < |d| ==>
      h[2 * i] == HexDigit(d[i] / 16) && h[2 * i + 1] == HexDigit(d[i] % 16)
    ensures forall j :: 0 <= j < |h| ==> IsLowerHexChar(h[j])
  {
    if d == [] then ""
    else [HexDigit(d[0] / 16), HexDigit(d[0] % 16)] + HexDigest(d[1..])
  }

  /** Parses a lower-case hex string of even length back into bytes. */
  function UnHex(h: string): (d: seq<byte>)
    requires |h| % 2 == 0
    requires forall j :: 0 <= j < |h| ==> IsLowerHexChar(h[j])
    ensures |d| == |h| / 2
  {
    if h == [] then []
    else [HexValue(h[0]) * 16 + HexValue(h[1])] + UnHex(h[2..])
  }

  /** Rendering a digest in hex loses nothing. */
  lemma {:induction false} UnHexHexDigest(d: seq<byte>)
    ensures UnHex(HexDigest(d)) == d
  {
    if d != [] {
      var h := HexDigest(d);
      assert h[2..] == HexDigest(d[1..]);
      UnHexHexDigest(d[1..]);
    }
  }

  /** `getKindlePassword`: "fiona" and characters 7..10 of the hex digest of the serial and a newline. */
  function Password(serial: string, md5: string -> Digest): (p: string)
    ensures |p| == 9 && p[..5] == "fiona"
    ensures forall i :: 5 <= i < 9 ==> IsLowerHexChar(p[i])
  {
    "fiona" + HexDigest(md5(serial + "\n"))[7..11]
  }

  /**
    The four password characters are the low nibble of digest byte 3, both
    nibbles of byte 4 and the high nibble of byte 5.
   */
  lemma PasswordNibbles(serial: string, md5: string -> Digest)
    ensures var d := md5(serial + "\n");
      Password(serial, md5)[5..] ==
        [HexDigit(d[3] % 16), HexDigit(d[4] / 16), HexDigit(d[4] % 16), HexDigit(d[5] / 16)]
  {
  }

  /** Two serials whose digests agree on bytes 3..5 get the same password. */
  lemma PasswordDependsOnBytes3To5(s1: string, s2: string, md5: string -> Digest)
    requires md5(s1 + "\n")[3..6] == md5(s2 + "\n")[3..6]
    ensures Password(s1, md5) == Password(s2, md5)
  {
    PasswordNibbles(s1, md5);
    PasswordNibbles(s2, md5);
    assert md5(s1 + "\n")[3] == md5(s1 + "\n")[3..6][0];
    assert md5(s1 + "\n")[4] == md5(s1 + "\n")[3..6][1];
    assert md5(s1 + "\n")[5] == md5(s1 + "\n")[3..6][2];
    assert md5(s2 + "\n")[3] == md5(s2 + "\n")[3..6][0];
    assert md5(s2 + "\n")[4] == md5(s2 + "\n")[3..6][1];
    assert md5(s2 + "\n")[5] == md5(s2 + "\n")[3..6][2];
    assert Password(s1, md5) == Password(s1, md5)[..5] + Password(s1, md5)[5..];
    assert Password(s2, md5) == Password(s2, md5)[..5] + Password(s2, md5)[5..];
  }

  /** The model depends on the character at index 4 alone. */
  lemma ModelOfIndex4Only(s1: string, s2: string)
    requires |s1| >= 5 && |s2| >= 5 && s1[4] == s2[4]
    ensures ModelOf(s1) == ModelOf(s2)
  {
  }

  /** Different known keys name different models, so the name determines the key. */
  lemma ModelNamesDistinct(s1: string, s2: string)
    requires |s1| >= 5 && |s2| >= 5
    requires ModelOf(s1).Some? && ModelOf(s1) == ModelOf(s2)
    ensures s1[4] == s2[4]
  {
  }

  /** The lookup is case-sensitive: a lower-case 'a' is not the key 'A'. */
  lemma ModelOfCaseSensitive(serial: string)
    requires |serial| >= 5 && serial[4] == 'a'
    ensures ModelOf(serial) == None
  {
  }

  /** Table entries, as the table lists them. */
  lemma ModelOfExamples()
    ensures ModelOf("B0008") == Some("Kindle 3 WIFI")
    ensures ModelOf("B001A") == Some("Kindle 3 3G + WIFI European")
    ensures ModelOf("B0011") == Some("Kindle 1")
    ensures ModelOf("B0019") == Some("Kindle DX Graphite")
  {
  }
}
