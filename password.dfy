/** Password hashing (`hashPassword` and `verifyPassword` in
    src/handlers/SessionHandler.ts). A stored credential is the hex-encoded
    salt, a colon, and the hex-encoded derived key. The key derivation function
    (PBKDF2 with HMAC-SHA512, 1000 iterations, 64-byte key, as section 5.2 of
    RFC 8018 defines it) and the random salt are parameters: the model treats
    the derivation as an arbitrary deterministic function of the password and
    the salt string. */
module Password {

  type Byte = b: int | 0 <= b < 256

  /** A key derivation function: password and salt string to derived bytes. */
  type Kdf = (string, string) -> seq<Byte>

  predicate IsHexChar(c: char)
  {
    '0' <= c <= '9' || 'a' <= c <= 'f'
  }

  function HexDigit(n: int): (c: char)
    requires 0 <= n < 16
    ensures IsHexChar(c)
  {
    if n < 10 then (48 + n) as char else (87 + n) as char
  }

  lemma HexDigitInjective(m: int, n: int)
    requires 0 <= m < 16 && 0 <= n < 16
    requires HexDigit(m) == HexDigit(n)
    ensures m == n
  {
  }

  /** `Buffer.toString('hex')`: two lower-case hex digits per byte. */
  function Hex(bytes: seq<Byte>): (s: string)
    ensures |s| == 2 * |bytes|
    ensures forall i | 0 <= i < |s| :: IsHexChar(s[i])
  {
    if bytes == [] then ""
    else [HexDigit(bytes[0] / 16), HexDigit(bytes[0] % 16)] + Hex(bytes[1..])
  }

  /** Hex encoding loses nothing: different bytes give different strings. */
  lemma {:induction false} HexInjective(a: seq<Byte>, b: seq<Byte>)
    requires Hex(a) == Hex(b)
    ensures a == b
  {
    if a != [] {
      assert |b| == |a|;
      assert Hex(a)[0] == HexDigit(a[0] / 16) && Hex(b)[0] == HexDigit(b[0] / 16);
      assert Hex(a)[1] == HexDigit(a[0] % 16) && Hex(b)[1] == HexDigit(b[0] % 16);
      HexDigitInjective(a[0] / 16, b[0] / 16);
      HexDigitInjective(a[0] % 16, b[0] % 16);
      assert Hex(a[1..]) == Hex(a)[2..] == Hex(b)[2..] == Hex(b[1..]);
      HexInjective(a[1..], b[1..]);
      assert a == [a[0]] + a[1..] && b == [b[0]] + b[1..];
    }
  }

  /** `String.prototype.split` with a one-character separator: the pieces
      between separators, the empty ones included. */
  function Split(s: string, sep: char): (parts: seq<string>)
    ensures |parts| >= 1
    ensures forall i | 0 <= i < |parts| :: sep !in parts[i]
  {
    if s == [] then [""]
    else
      var rest := Split(s[1..], sep);
      if s[0] == sep then [""] + rest
      else [[s[0]] + rest[0]] + rest[1..]
  }

  /** The pieces glued back together with the separator between them. */
  function Join(parts: seq<string>, sep: char): string
    requires |parts| >= 1
  {
    if |parts| == 1 then parts[0] else parts[0] + [sep] + Join(parts[1..], sep)
  }

  /** Splitting loses nothing: joining the pieces gives back the string. */
  lemma {:induction false} JoinSplit(s: string, sep: char)
    ensures Join(Split(s, sep), sep) == s
  {
    if s != [] {
      var rest := Split(s[1..], sep);
      JoinSplit(s[1..], sep);
      if s[0] != sep {
        var parts := [[s[0]] + rest[0]] + rest[1..];
        assert parts[1..] == rest[1..];
        if |rest| > 1 {
          assert Join(rest, sep) == rest[0] + [sep] + Join(rest[1..], sep);
        }
      }
    }
  }

  /** Splitting a separator-free prefix off the front. */
  lemma {:induction false} SplitPrefix(a: string, t: string, sep: char)
    requires sep !in a
    ensures Split(a + t, sep) == [a + Split(t, sep)[0]] + Split(t, sep)[1..]
  {
    if a != [] {
      SplitPrefix(a[1..], t, sep);
      assert (a + t)[1..] == a[1..] + t;
      var rest := Split(a[1..] + t, sep);
      assert rest[0] == a[1..] + Split(t, sep)[0];
      assert rest[1..] == Split(t, sep)[1..];
      assert a[0] in a && (a + t)[0] == a[0];
      assert Split(a + t, sep) == [[a[0]] + rest[0]] + rest[1..];
      assert [a[0]] + (a[1..] + Split(t, sep)[0]) == a + Split(t, sep)[0];
      assert [[a[0]] + rest[0]] + rest[1..] == [a + Split(t, sep)[0]] + Split(t, sep)[1..];
    } else {
      var parts := Split(t, sep);
      assert a + t == t && a + parts[0] == parts[0];
      assert [parts[0]] + parts[1..] == parts;
    }
  }

  /** Pieces without the separator split back out of their join. */
  lemma {:induction false} SplitJoin(parts: seq<string>, sep: char)
    requires |parts| >= 1
    requires forall i | 0 <= i < |parts| :: sep !in parts[i]
    ensures Split(Join(parts, sep), sep) == parts
  {
    if |parts| == 1 {
      SplitPrefix(parts[0], "", sep);
      assert parts[0] + "" == parts[0];
    } else {
      var tail := [sep] + Join(parts[1..], sep);
      SplitJoin(parts[1..], sep);
      assert Split(tail, sep) == [""] + parts[1..] by {
        assert tail[1..] == Join(parts[1..], sep);
      }
      SplitPrefix(parts[0], tail, sep);
      assert Join(parts, sep) == parts[0] + tail;
      assert Split(tail, sep)[0] == "" && Split(tail, sep)[1..] == parts[1..];
      assert parts[0] + "" == parts[0];
      assert parts == [parts[0]] + parts[1..];
    }
  }

  /** `hashPassword`: `salt:key`, the salt being the hex form of the random
      bytes and the key the hex form of what the derivation makes of the
      password and that salt string. */
  function HashPassword(password: string, salt: seq<Byte>, kdf: Kdf): (stored: string)
    ensures Split(stored, ':') == [Hex(salt), Hex(kdf(password, Hex(salt)))]
  {
    var saltText := Hex(salt);
    var parts := [saltText, Hex(kdf(password, saltText))];
    SplitJoin(parts, ':');
    Join(parts, ':')
  }

  /** `verifyPassword`: splits the stored credential at its colons and compares
      the second piece with the key derived from the password and the first
      piece; a credential without a colon never verifies. */
  function VerifyPassword(password: string, stored: string, kdf: Kdf): bool
  {
    var parts := Split(stored, ':');
    |parts| >= 2 && parts[1] == Hex(kdf(password, parts[0]))
  }

  /** A password verifies against its own hash. */
  lemma VerifyHashed(password: string, salt: seq<Byte>, kdf: Kdf)
    ensures VerifyPassword(password, HashPassword(password, salt, kdf), kdf)
  {
  }

  /** Another password verifies against a hash exactly when the derivation
      gives it the same key under that salt. */
  lemma VerifyOther(password: string, candidate: string, salt: seq<Byte>, kdf: Kdf)
    ensures VerifyPassword(candidate, HashPassword(password, salt, kdf), kdf)
            <==> kdf(candidate, Hex(salt)) == kdf(password, Hex(salt))
  {
    if VerifyPassword(candidate, HashPassword(password, salt, kdf), kdf) {
      HexInjective(kdf(candidate, Hex(salt)), kdf(password, Hex(salt)));
    }
  }

  /** A stored credential without a colon is rejected, whatever the password. */
  lemma {:induction false} NoColonNeverVerifies(password: string, stored: string, kdf: Kdf)
    requires ':' !in stored
    ensures !VerifyPassword(password, stored, kdf)
  {
    SplitPrefix(stored, "", ':');
    assert stored + "" == stored;
  }
}
