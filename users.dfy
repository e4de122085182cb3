/** The user credential: an id, a username and the lower-case hex text of the
    SHA-256 digest of the password; two users are equal when username and
    digest text agree. */
module Users {
  import opened Java

  /** A SHA-256 digest. */
  type Digest = s: seq<JByte> | |s| == 32 witness seq(32, i => 0)

  /** What the platform supplies for hashing: `String.getBytes()` in the
      default charset, and the SHA-256 `MessageDigest`, `None` when
      `MessageDigest.getInstance("SHA-256")` throws NoSuchAlgorithmException. */
  datatype Crypto = Crypto(getBytes: string -> seq<JByte>, sha256: Option<seq<JByte> -> Digest>)

  /** The two lower-case hex digits of a byte, high nibble first. */
  function HexOfByte(b: JByte): (s: string)
    ensures |s| == 2
  {
    var u := Unsigned(b);
    [DigitChar(u / 16), DigitChar(u % 16)]
  }

  /** The hex text of a byte sequence: two characters per byte. */
  function Hex(bytes: seq<JByte>): (s: string)
    ensures |s| == 2 * |bytes|
  {
    if bytes == [] then "" else HexOfByte(bytes[0]) + Hex(bytes[1..])
  }

  lemma {:induction false} HexAppend(bytes: seq<JByte>, b: JByte)
    ensures Hex(bytes + [b]) == Hex(bytes) + HexOfByte(b)
    decreases |bytes|
  {
    if bytes == [] {
      assert bytes + [b] == [b];
    } else {
      assert (bytes + [b])[1..] == bytes[1..] + [b];
      HexAppend(bytes[1..], b);
    }
  }

  /** Characters 2i and 2i+1 of the text encode byte i. */
  lemma {:induction false} HexPairAt(bytes: seq<JByte>, i: nat)
    requires i < |bytes|
    ensures Hex(bytes)[2 * i..2 * i + 2] == HexOfByte(bytes[i])
    decreases i
  {
    if i > 0 {
      HexPairAt(bytes[1..], i - 1);
      assert Hex(bytes)[2 * i..2 * i + 2] == Hex(bytes[1..])[2 * (i - 1)..2 * (i - 1) + 2];
    }
  }

  /** Every character of the text is one of 0-9 and a-f. */
  lemma HexIsLowerCaseDigits(bytes: seq<JByte>)
    ensures forall k :: 0 <= k < |Hex(bytes)| ==> '0' <= Hex(bytes)[k] <= '9' || 'a' <= Hex(bytes)[k] <= 'f'
  {
    forall k | 0 <= k < |Hex(bytes)|
      ensures '0' <= Hex(bytes)[k] <= '9' || 'a' <= Hex(bytes)[k] <= 'f'
    {
      HexPairAt(bytes, k / 2);
      assert Hex(bytes)[k] == HexOfByte(bytes[k / 2])[k % 2];
    }
  }

  /** Reads hex text back, two characters per byte (a pair that is not
      hex reads as 0). */
  function UnHex(s: string): seq<JByte>
    decreases |s|
  {
    if |s| < 2 then []
    else
      var hi, lo := DigitValue(s[0]), DigitValue(s[1]);
      [if 0 <= hi < 16 && 0 <= lo < 16 then Signed(hi * 16 + lo) else 0] + UnHex(s[2..])
  }

  lemma {:induction false} HexRoundTrip(bytes: seq<JByte>)
    ensures UnHex(Hex(bytes)) == bytes
    decreases |bytes|
  {
    if bytes != [] {
      var s := Hex(bytes);
      var u := Unsigned(bytes[0]);
      assert s[..2] == HexOfByte(bytes[0]) && s[2..] == Hex(bytes[1..]);
      assert DigitValue(s[0]) == u / 16 && DigitValue(s[1]) == u % 16;
      assert Signed(u / 16 * 16 + u % 16) == bytes[0];
      HexRoundTrip(bytes[1..]);
    }
  }

  /** Distinct byte sequences give distinct texts. */
  lemma HexInjective(a: seq<JByte>, b: seq<JByte>)
    requires Hex(a) == Hex(b)
    ensures a == b
  {
    HexRoundTrip(a);
    HexRoundTrip(b);
  }

  /** What the loop appends for byte `b`,
      `Integer.toString((b & 0xff) + 0x100, 16).substring(1)`, is its two hex digits. */
  lemma HexPieceIsHexOfByte(b: JByte)
    ensures |IntToString(Unsigned(b) + 0x100, 16)| == 3
    ensures IntToString(Unsigned(b) + 0x100, 16)[1..] == HexOfByte(b)
  {
    var u := Unsigned(b);
    var n := u + 0x100;
    assert n / 16 == 16 + u / 16 && n % 16 == u % 16;
    assert (16 + u / 16) / 16 == 1 && (16 + u / 16) % 16 == u / 16;
    assert Digits(16 + u / 16, 16) == [DigitChar(1), DigitChar(u / 16)];
    assert IntToString(n, 16) == [DigitChar(1), DigitChar(u / 16), DigitChar(u % 16)];
  }

  /** The hash text stored for `password`: the hex of its SHA-256 digest,
      64 characters long, or null when SHA-256 is unavailable. */
  function PasswordHash(password: string, crypto: Crypto): (h: Option<string>)
    ensures h.Some? <==> crypto.sha256.Some?
    ensures h.Some? ==> |h.value| == 64
  {
    match crypto.sha256
    case None => None
    case Some(sha) =>
      var digest := sha(crypto.getBytes(password));
      Some(Hex(digest))
  }

  /** `obj` in `equals(Object obj)`: null, a user, or an object of another class. */
  datatype Obj = NullRef | UserRef(u: User) | OtherObject

  /** The outcome of evaluating a Java expression that can throw a
      NullPointerException. */
  datatype Eval<+T> = Value(v: T) | NullPointer

  /** `this.user.equals(other.user) && this.hash.equals(other.hash)` for a
      receiver holding `user` and `hash`. */
  function FieldsEqual(user: Option<string>, hash: Option<string>, other: User): (r: Eval<bool>)
    ensures r.NullPointer? <==> user.None? || (user == other.user && hash.None?)
    ensures r.Value? ==> (r.v <==> user == other.user && hash == other.hash)
  {
    if user.None? then NullPointer
    else if user != other.user then Value(false)
    else if hash.None? then NullPointer
    else Value(hash == other.hash)
  }

  class User {
    const id: Int32
    const user: Option<string>
    /** The plain-text password; null on users read back from the store. */
    const password: Option<string>
    /** Assigned only while constructing (by the constructor itself or by
        `ComputeHash`, which only the constructor calls). */
    const hash: Option<string>

    /** A supplied hash is kept; a null one is computed from the password. */
    constructor (id: Int32, user: Option<string>, password: Option<string>, hash: Option<string>, crypto: Crypto)
      requires hash.None? && crypto.sha256.Some? ==> password.Some?
      ensures this.id == id && this.user == user && this.password == password
      ensures hash.Some? ==> this.hash == hash
      ensures hash.None? && password.Some? ==> this.hash == PasswordHash(password.value, crypto)
      ensures hash.None? && password.None? ==> this.hash.None?
    {
      this.id := id;
      this.user := user;
      this.password := password;
      if hash.None? {
        var computed := ComputeHash(password, crypto);
        this.hash := computed;
      } else {
        this.hash := hash;
      }
    }

    /** SHA-256 of the password's bytes, written out as hex one byte at a time. */
    static method ComputeHash(password: Option<string>, crypto: Crypto) returns (hash: Option<string>)
      requires crypto.sha256.Some? ==> password.Some?
      ensures crypto.sha256.None? ==> hash.None?
      ensures crypto.sha256.Some? ==> hash == PasswordHash(password.value, crypto)
    {
      match crypto.sha256
      case None =>
        hash := None;
      case Some(sha) =>
        var bytes := sha(crypto.getBytes(password.value));
        var sb := "";
        for i := 0 to |bytes|
          invariant sb == Hex(bytes[..i])
        {
          HexPieceIsHexOfByte(bytes[i]);
          HexAppend(bytes[..i], bytes[i]);
          assert bytes[..i + 1] == bytes[..i] + [bytes[i]];
          sb := sb + IntToString(Unsigned(bytes[i]) + 0x100, 16)[1..];
        }
        assert bytes[..|bytes|] == bytes;
        hash := Some(sb);
    }

    /** `equals(Object obj)`. */
    function Equals(obj: Obj): (r: Eval<bool>)
      ensures !obj.UserRef? ==> r == Value(false)
      ensures user.Some? && hash.Some? ==> r == Value(obj.UserRef? && obj.u.user == user && obj.u.hash == hash)
      ensures r.NullPointer? ==> obj.UserRef? && obj.u != this
      ensures obj.UserRef? && obj.u == this ==> r == Value(true)
      ensures obj.UserRef? && obj.u != this ==> r == FieldsEqual(user, hash, obj.u)
    {
      match obj
      case NullRef => Value(false)
      case UserRef(other) => if other == this then Value(true) else FieldsEqual(user, hash, other)
      case OtherObject => Value(false)
    }

    /** `hashCode()`, over the platform's `String.hashCode`: `31 * result`
        and the following `+ result1` each wrap around as Java `int`
        arithmetic does. The result agrees with the exact value modulo 2^32,
        and is 0 when both fields are null. */
    function HashCode(stringHash: string -> Int32): (r: Int32)
      ensures var h1 := if user.Some? then stringHash(user.value) else 0;
              var h2 := if hash.Some? then stringHash(hash.value) else 0;
              (31 * h1 + h2 - r) % 0x1_0000_0000 == 0
      ensures user.None? && hash.None? ==> r == 0
    {
      var result := if user.Some? then stringHash(user.value) else 0;
      var result1 := if hash.Some? then stringHash(hash.value) else 0;
      var product := Wrap32(31 * result);
      var sum := Wrap32(product + result1);
      MultiplesAdd(31 * result - product, product + result1 - sum);
      sum
    }
  }

  /** The sum of two multiples of 2^32 is one. */
  lemma MultiplesAdd(x: int, y: int)
    requires x % 0x1_0000_0000 == 0 && y % 0x1_0000_0000 == 0
    ensures (x + y) % 0x1_0000_0000 == 0
  {
    var m := 0x1_0000_0000;
    assert x == (x / m) * m;
    assert y == (y / m) * m;
    assert x + y == (x / m + y / m) * m;
  }

  lemma EqualsReflexive(a: User)
    ensures a.Equals(UserRef(a)) == Value(true)
  {
  }

  /** Symmetric whenever neither side has a null username or hash. */
  lemma EqualsSymmetric(a: User, b: User)
    requires a.user.Some? && a.hash.Some? && b.user.Some? && b.hash.Some?
    ensures a.Equals(UserRef(b)) == b.Equals(UserRef(a))
  {
  }

  lemma EqualsTransitive(a: User, b: User, c: User)
    requires a.user.Some? && a.hash.Some? && b.user.Some? && b.hash.Some?
    requires a.Equals(UserRef(b)) == Value(true) && b.Equals(UserRef(c)) == Value(true)
    ensures a.Equals(UserRef(c)) == Value(true)
  {
  }

  /** Neither `id` nor the plain-text password takes part in equality. */
  lemma EqualsIgnoresIdAndPassword(a: User, b: User, obj: Obj)
    requires a.user.Some? && a.hash.Some?
    requires a.user == b.user && a.hash == b.hash
    ensures a.Equals(obj) == b.Equals(obj)
  {
  }

  lemma EqualUsersHaveEqualHashCodes(a: User, b: User, stringHash: string -> Int32)
    requires a.Equals(UserRef(b)) == Value(true)
    ensures a.HashCode(stringHash) == b.HashCode(stringHash)
  {
  }
}
