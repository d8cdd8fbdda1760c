/** The "ovaltine-esque" obfuscation of rickpy: every byte is shifted by a
    fixed amount modulo 256, the shifted bytes are Base64-encoded, and a
    marker prefix is put in front. Text is a sequence of bytes, as a
    Python 2 `str` is. */
module Cipher {

  import opened Wrappers
  import opened Seqs
  import Base64

  type byte = Base64.byte

  /** `ENCRYPTION_PREFIX` */
  const Prefix: string := "%%%%%"

  /** `ENCRYPTION_SHIFT`, the shift used when the caller gives none. */
  const DefaultShift: int := 37

  /** `chr((ord(b) + n) % 256)` */
  function ShiftByte(b: byte, n: int): byte
  {
    (b + n) % 256
  }

  /** `chr((ord(b) - n + 256) % 256)` */
  function UnshiftByte(b: byte, n: int): byte
  {
    (b - n + 256) % 256
  }

  /** Unshifting undoes shifting and shifting undoes unshifting, for every
      shift, negative and larger-than-a-byte ones included. */
  lemma ShiftInverse(b: byte, n: int)
    ensures UnshiftByte(ShiftByte(b, n), n) == b
    ensures ShiftByte(UnshiftByte(b, n), n) == b
  {
    ModShift(b + n, -n + 256);
    ModShift(b - n + 256, n);
  }

  /** Adding to a number after reducing it modulo 256 is the same, modulo
      256, as adding before. */
  lemma ModShift(x: int, y: int)
    ensures (x % 256 + y) % 256 == (x + y) % 256
  {
    var q := x / 256;
    assert x == q * 256 + x % 256;
    assert x + y == (x % 256 + y) + q * 256;
    ModMultiple(x % 256 + y, q);
  }

  lemma ModMultiple(z: int, q: int)
    ensures (z + q * 256) % 256 == z % 256
    ensures (z + 256 * q) % 256 == z % 256
  {
  }

  /** The byte-wise shift of a whole text. */
  function ShiftAll(x: seq<byte>, n: int): (r: seq<byte>)
    ensures |r| == |x|
    ensures forall i :: 0 <= i < |x| ==> r[i] == ShiftByte(x[i], n)
  {
    seq(|x|, i requires 0 <= i < |x| => ShiftByte(x[i], n))
  }

  /** The byte-wise inverse shift of a whole text. */
  function UnshiftAll(x: seq<byte>, n: int): (r: seq<byte>)
    ensures |r| == |x|
    ensures forall i :: 0 <= i < |x| ==> r[i] == UnshiftByte(x[i], n)
  {
    seq(|x|, i requires 0 <= i < |x| => UnshiftByte(x[i], n))
  }

  /** `encrypt(x, n)`: the prefix, then the Base64 text of the shifted
      bytes, four characters for every started group of three. */
  function Encrypt(x: seq<byte>, n: int): (r: string)
    ensures |r| == |Prefix| + 4 * ((|x| + 2) / 3)
    ensures r[..|Prefix|] == Prefix
    ensures forall i :: |Prefix| <= i < |r| ==> Base64.InAlphabet(r[i]) || r[i] == Base64.Pad
  {
    Prefix + Base64.Encode(ShiftAll(x, n))
  }

  /** `decrypt(x, n)`: the first `len(ENCRYPTION_PREFIX)` characters are
      dropped unchecked, the rest is Base64-decoded (a malformed text is an
      error) and every byte is shifted back. */
  function Decrypt(t: string, n: int): (r: Option<seq<byte>>)
    ensures r.Some? <==> Base64.Decode(Drop(t, |Prefix|)).Some?
    ensures r.Some? ==> ShiftAll(r.value, n) == Base64.Decode(Drop(t, |Prefix|)).value
  {
    UnshiftThenShift(Base64.Decode(Drop(t, |Prefix|)), n);
    match Base64.Decode(Drop(t, |Prefix|))
    case None => None
    case Some(s) => Some(UnshiftAll(s, n))
  }

  lemma UnshiftThenShift(d: Option<seq<byte>>, n: int)
    ensures d.Some? ==> ShiftAll(UnshiftAll(d.value, n), n) == d.value
  {
    if d.Some? {
      var back := ShiftAll(UnshiftAll(d.value, n), n);
      forall i | 0 <= i < |d.value|
        ensures back[i] == d.value[i]
      {
        ShiftInverse(d.value[i], n);
      }
    }
  }

  /** `is_encrypted(x)`: whether the text starts with the marker prefix. */
  function IsEncrypted(t: string): (r: bool)
    ensures r <==> Prefix <= t
  {
    Take(t, |Prefix|) == Prefix
  }

  /** Decrypting with the shift used to encrypt gives back the text, for
      every byte sequence and every shift. */
  lemma DecryptEncrypt(x: seq<byte>, n: int)
    ensures Decrypt(Encrypt(x, n), n) == Some(x)
  {
    var shifted := ShiftAll(x, n);
    var body := Base64.Encode(shifted);
    assert Drop(Prefix + body, |Prefix|) == body;
    Base64.DecodeEncode(shifted);
    var back := UnshiftAll(shifted, n);
    forall i | 0 <= i < |x|
      ensures back[i] == x[i]
    {
      ShiftInverse(x[i], n);
    }
    assert back == x;
  }

  /** `encrypt(x)` and `decrypt(x)` called without a shift use
      `DefaultShift`, and the pair gives back the text. */
  lemma DefaultShiftRoundTrip(x: seq<byte>)
    ensures Decrypt(Encrypt(x, DefaultShift), DefaultShift) == Some(x)
  {
    DecryptEncrypt(x, DefaultShift);
  }

  /** `encrypt('a')`: 97 shifted by 37 is 134, whose Base64 text is `hg==`. */
  lemma DefaultShiftExample()
    ensures Encrypt([97], DefaultShift) == "%%%%%hg=="
  {
  }

  /** Whatever it encrypts, `Encrypt` produces a text `IsEncrypted`
      recognises. */
  lemma EncryptIsRecognised(x: seq<byte>, n: int)
    ensures IsEncrypted(Encrypt(x, n))
  {
  }

  /** Two texts encrypted with the same shift are equal exactly when their
      plaintexts are. */
  lemma EncryptInjective(x: seq<byte>, y: seq<byte>, n: int)
    ensures Encrypt(x, n) == Encrypt(y, n) <==> x == y
  {
    if Encrypt(x, n) == Encrypt(y, n) {
      DecryptEncrypt(x, n);
      DecryptEncrypt(y, n);
    }
  }

  /** Decryption never looks at the prefix: any five characters in its place
      give the same result. */
  lemma DecryptIgnoresPrefix(p: string, body: string, n: int)
    requires |p| == |Prefix|
    ensures Decrypt(p + body, n) == Decrypt(Prefix + body, n)
  {
    assert Drop(p + body, |Prefix|) == body;
    assert Drop(Prefix + body, |Prefix|) == body;
  }

  /** Shifts that differ by a multiple of 256 encrypt alike. */
  lemma {:induction false} ShiftPeriodic(x: seq<byte>, n: int, m: int)
    ensures Encrypt(x, n + 256 * m) == Encrypt(x, n)
  {
    forall i | 0 <= i < |x|
      ensures ShiftByte(x[i], n + 256 * m) == ShiftByte(x[i], n)
    {
      ModMultiple(x[i] + n, m);
    }
    assert ShiftAll(x, n + 256 * m) == ShiftAll(x, n);
  }
}
