/**
 * The token format shared by both authenticators: a token is the encoded
 * text `username:password`, and the username is read back as the text
 * before the first colon. `createToken`, `parseToken` and
 * `getUsernameFromToken` are written identically in srp/good.ts and
 * srp/bad.ts.
 */
module TokenFormat {
  import opened Wrappers
  import opened Credentials
  import Utf8
  import Hexer

  /** The position of the first `sep` in `s`, or `|s|` when there is none. */
  function IndexOf(s: string, sep: char): (i: nat)
    ensures i <= |s| && sep !in s[..i]
    ensures i < |s| ==> s[i] == sep
  {
    if s == [] || s[0] == sep then 0
    else
      var j := IndexOf(s[1..], sep);
      assert s[..j + 1] == [s[0]] + s[1..][..j];
      j + 1
  }

  /** The fields joined back together, `sep` between neighbours. */
  function Join(fields: seq<string>, sep: char): string
    requires |fields| >= 1
  {
    if |fields| == 1 then fields[0] else fields[0] + [sep] + Join(fields[1..], sep)
  }

  /**
   * `String.prototype.split` with a one-character separator: the maximal
   * separator-free pieces of `s`, in order; an empty string is one empty field.
   */
  function Split(s: string, sep: char): (fields: seq<string>)
    ensures |fields| >= 1 && fields[0] == s[..IndexOf(s, sep)]
    ensures |fields| == 1 <==> sep !in s
    decreases |s|
  {
    var i := IndexOf(s, sep);
    if i == |s| then
      [s]
    else
      assert s[i] == sep;
      [s[..i]] + Split(s[i + 1..], sep)
  }

  /** Joining a field in front of at least one other puts one separator between them. */
  lemma JoinCons(field: string, rest: seq<string>, sep: char)
    requires |rest| >= 1
    ensures Join([field] + rest, sep) == field + [sep] + Join(rest, sep)
  {
    assert ([field] + rest)[1..] == rest;
  }

  /** No field of a split holds the separator. */
  lemma {:induction false} SplitFieldsFree(s: string, sep: char)
    ensures forall k :: 0 <= k < |Split(s, sep)| ==> sep !in Split(s, sep)[k]
    decreases |s|
  {
    var i := IndexOf(s, sep);
    if i < |s| {
      var rest := Split(s[i + 1..], sep);
      SplitFieldsFree(s[i + 1..], sep);
      assert Split(s, sep) == [s[..i]] + rest;
      forall k | 0 <= k < |Split(s, sep)|
        ensures sep !in Split(s, sep)[k]
      {
        if k > 0 {
          assert Split(s, sep)[k] == rest[k - 1];
        }
      }
    }
  }

  /** Joining the fields of a split by its separator gives the text back. */
  lemma {:induction false} JoinSplit(s: string, sep: char)
    ensures Join(Split(s, sep), sep) == s
    decreases |s|
  {
    var i := IndexOf(s, sep);
    if i < |s| {
      var tail := s[i + 1..];
      var rest := Split(tail, sep);
      calc {
        Join(Split(s, sep), sep);
        { assert Split(s, sep) == [s[..i]] + rest; }
        Join([s[..i]] + rest, sep);
        { JoinCons(s[..i], rest, sep); }
        s[..i] + [sep] + Join(rest, sep);
        { JoinSplit(tail, sep); }
        s[..i] + [sep] + tail;
        { assert s[i] == sep; }
        s;
      }
    } else {
      assert s[..i] == s;
    }
  }

  /**
   * `createToken`: the encoded text `username:password`. The source's
   * decoder gives that text back without a leading U+FEFF.
   */
  function CreateToken(user: User): (token: Token)
    ensures Hexer.DecodeStrict(token) == Ok(user.username + ":" + user.password)
    ensures Hexer.Decode(token) == Ok(Utf8.DropBom(user.username + ":" + user.password))
    ensures forall i :: 0 <= i < |token| ==> Hexer.IsLowerHexChar(token[i])
  {
    var material := user.username + ":" + user.password;
    Hexer.DecodeEncode(material);
    Hexer.DecodeStrictEncode(material);
    Hexer.Encode(material)
  }

  /**
   * `parseToken`: the first two colon-separated fields; the second is absent
   * (`undefined` in the source) when the text has no colon.
   */
  function ParseToken(decodedToken: string): (parsed: (string, Option<string>))
    ensures ':' !in parsed.0 && parsed.0 <= decodedToken
    ensures |parsed.0| == |decodedToken| || decodedToken[|parsed.0|] == ':'
    ensures parsed.1.None? <==> ':' !in decodedToken
    ensures parsed.1.Some? ==> ':' !in parsed.1.value && parsed.0 + ":" + parsed.1.value <= decodedToken
    ensures parsed.1.Some? ==>
              var end := |parsed.0| + 1 + |parsed.1.value|;
              end == |decodedToken| || decodedToken[end] == ':'
  {
    var fields := Split(decodedToken, ':');
    var i := IndexOf(decodedToken, ':');
    assert decodedToken[..i] <= decodedToken;
    if |fields| > 1 then
      var tail := decodedToken[i + 1..];
      var j := IndexOf(tail, ':');
      assert fields[1] == tail[..j];
      assert decodedToken == decodedToken[..i] + ":" + tail by { assert decodedToken[i] == ':'; }
      TakeConcat(decodedToken[..i] + ":", tail, j);
      assert i + 1 + j < |decodedToken| ==> decodedToken[i + 1 + j] == tail[j];
      (fields[0], Some(fields[1]))
    else
      (fields[0], None)
  }

  /** Taking a prefix that reaches into the second part of a concatenation. */
  lemma TakeConcat(x: string, y: string, j: nat)
    requires j <= |y|
    ensures (x + y)[..|x| + j] == x + y[..j]
  {
  }

  /** `getUsernameFromToken`: the decoded token up to its first colon. */
  function UsernameFromToken(token: Token): (r: Result<string, AuthError>)
    ensures r.Ok? <==> Hexer.Decode(token).Ok?
    ensures r.Err? ==> r.error == DecodeError
    ensures r.Ok? ==> ':' !in r.value && r.value <= Hexer.Decode(token).value
    ensures r.Ok? ==> |r.value| == |Hexer.Decode(token).value| || Hexer.Decode(token).value[|r.value|] == ':'
  {
    match Hexer.Decode(token)
    case Err(e) => Err(e)
    case Ok(decodedToken) => Ok(ParseToken(decodedToken).0)
  }

  /** `IndexOf` finds the first separator: any position with no separator before it and one (or the end) at it. */
  lemma IndexOfFirst(s: string, sep: char, n: nat)
    requires n <= |s| && sep !in s[..n]
    requires n < |s| ==> s[n] == sep
    ensures IndexOf(s, sep) == n
  {
    var i := IndexOf(s, sep);
    assert forall k :: 0 <= k < i ==> s[..i][k] == s[k];
    assert forall k :: 0 <= k < n ==> s[..n][k] == s[k];
  }

  /** Parsing recovers both credentials when neither contains a colon. */
  lemma ParseCredentials(username: string, password: string)
    requires ':' !in username && ':' !in password
    ensures ParseToken(username + ":" + password) == (username, Some(password))
  {
    var text := username + ":" + password;
    assert text[..|username|] == username;
    IndexOfFirst(text, ':', |username|);
    var tail := text[|username| + 1..];
    assert tail == password && tail[..|tail|] == tail;
    IndexOfFirst(tail, ':', |tail|);
    assert Split(text, ':') == [username] + Split(tail, ':');
  }

  /**
   * A token made for a user whose name has no colon names that user, less
   * a leading U+FEFF that the decoder drops.
   */
  lemma UsernameOfCreatedToken(user: User)
    requires ':' !in user.username
    ensures UsernameFromToken(CreateToken(user)) == Ok(Utf8.DropBom(user.username))
  {
    var name := Utf8.DropBom(user.username);
    var text := user.username + ":" + user.password;
    var decoded := name + ":" + user.password;
    assert Utf8.DropBom(text) == decoded by {
      if Utf8.StartsWithBom(user.username) {
        assert text == [Utf8.Bom] + decoded;
      } else {
        assert !Utf8.StartsWithBom(text);
      }
    }
    assert ':' !in name;
    assert decoded[..|name|] == name;
    IndexOfFirst(decoded, ':', |name|);
  }

  /** Among users whose names have no colon, a token identifies the user. */
  lemma TokenDeterminesUser(u: User, v: User)
    requires ':' !in u.username && ':' !in v.username
    requires CreateToken(u) == CreateToken(v)
    ensures u == v
  {
    var text := u.username + ":" + u.password;
    Hexer.EncodeInjective(text, v.username + ":" + v.password);
    assert text[..|u.username|] == u.username;
    assert text[..|v.username|] == v.username;
    IndexOfFirst(text, ':', |u.username|);
    IndexOfFirst(text, ':', |v.username|);
    assert u.password == text[|u.username| + 1..];
  }

  /** Without that condition a token is ambiguous: the colon may fall in either field. */
  lemma AmbiguousToken()
    ensures CreateToken(User("a:b", "c")) == CreateToken(User("a", "b:c"))
  {
    assert "a:b" + ":" + "c" == "a" + ":" + "b:c";
  }
}
