/** The credentials sent with the AUTH command itself, as the server reads them
    (RFC 4616 for PLAIN; section 4 of RFC 4954 for the command). */
module InitialResponse {
  import opened Text
  import opened Errors
  import opened Commands
  import opened Authentication
  import opened ServerGrammar

  ghost predicate Inverse(base64: Base64) {
    forall text :: base64.decode(base64.encode(text)) == Success(text)
  }

  /** The decoded argument of an AUTH command line for the mechanism. */
  function AuthArgument(line: string, mechanism: string, base64: Base64): Option<string> {
    var command := "AUTH " + mechanism + " ";
    if command <= line && |line| >= |command| + 2 && line[|line| - 2..] == CRLF then
      match base64.decode(line[|command|..|line| - 2])
      case Success(text) => Some(text)
      case Failure(_) => None
    else None
  }

  /** Identity and password of a PLAIN message without an authorization identity: exactly two NULs, the first in
      front, and at least one character in each field. */
  function ParsePlain(text: string): Option<Credentials> {
    if text == "" || text[0] != '\0' then None
    else
      match Find(text[1..], '\0')
      case None => None
      case Some(k) =>
        var password := text[k + 2..];
        if k == 0 || password == "" || '\0' in password then None else Some(Credentials(text[1..k + 1], password))
  }

  /** The token of `auth=Bearer`, closed by two separators. */
  function ParseBearer(auth: string): Option<string> {
    if !("auth=Bearer " <= auth) then None
    else
      match Find(auth[12..], '\U{1}')
      case None => None
      case Some(k) => if auth[12 + k + 1..] == "\U{1}" then Some(auth[12..12 + k]) else None
  }

  /** User and token of an XOAUTH2 message. */
  function ParseXoauth2(text: string): Option<Credentials> {
    if !("user=" <= text) then None
    else
      match Find(text[5..], '\U{1}')
      case None => None
      case Some(k) =>
        match ParseBearer(text[5 + k + 1..])
        case None => None
        case Some(token) => Some(Credentials(text[5..5 + k], token))
  }

  /** Splitting at the first separator gives back the part before it if and only if that part is free of it. */
  lemma FindSeparator(part: string, c: char, rest: string)
    ensures Find(part + [c] + rest, c).Some?
    ensures c !in part ==> Find(part + [c] + rest, c) == Some(|part|)
    ensures c in part ==> Find(part + [c] + rest, c).value < |part|
  {
    var s := part + [c] + rest;
    assert s[|part|] == c && s[..|part|] == part;
    assert s[|part|] in s;
    if c !in part {
      FindIs(s, c, |part|);
    } else {
      var k := Find(s, c).value;
      var j :| 0 <= j < |part| && part[j] == c;
      assert s[j] == c;
      assert forall i :: 0 <= i < k ==> s[..k][i] == s[i];
    }
  }

  /** A user name or password that PLAIN can carry. */
  predicate PlainField(s: string) {
    s != "" && '\0' !in s
  }

  /** A PLAIN message gives back the credentials, or nothing at all if one of them is empty or has a NUL in it. */
  lemma PlainMessage(credentials: Credentials)
    ensures var text := "\0" + credentials.authenticationIdentity + "\0" + credentials.secret;
            ParsePlain(text) == if PlainField(credentials.authenticationIdentity) && PlainField(credentials.secret)
                                then Some(credentials) else None
  {
    hide Find;
    var id, secret := credentials.authenticationIdentity, credentials.secret;
    var text := "\0" + id + "\0" + secret;
    assert text[1..] == id + ['\0'] + secret;
    FindSeparator(id, '\0', secret);
    if '\0' !in id {
      assert text[1..|id| + 1] == id && text[|id| + 2..] == secret;
    } else {
      var k := Find(text[1..], '\0').value;
      assert text[k + 2..][|id| - k - 1] == '\0';
    }
  }

  lemma BearerToken(secret: string)
    ensures ParseBearer("auth=Bearer " + secret + ['\U{1}'] + "\U{1}")
         == if '\U{1}' !in secret then Some(secret) else None
  {
    hide Find;
    var token := secret + ['\U{1}'] + "\U{1}";
    var auth := "auth=Bearer " + secret + ['\U{1}'] + "\U{1}";
    assert auth == "auth=Bearer " + token && auth[12..] == token;
    FindSeparator(secret, '\U{1}', "\U{1}");
    if '\U{1}' !in secret {
      assert auth[12..12 + |secret|] == secret && auth[12 + |secret| + 1..] == "\U{1}";
    }
  }

  /** A separator with more than one character behind it is not the end of a token. */
  lemma EarlySeparator(part: string, rest: string)
    requires |rest| > 1
    ensures ParseBearer(part + ['\U{1}'] + rest) == None
  {
    var auth := part + ['\U{1}'] + rest;
    var command := "auth=Bearer ";
    if command <= auth {
      assert auth[|part|] == '\U{1}' && forall k :: 0 <= k < 12 ==> auth[k] == command[k] && command[k] != '\U{1}';
      assert auth[12..] == part[12..] + ['\U{1}'] + rest;
      hide Find;
      FindSeparator(part[12..], '\U{1}', rest);
    }
  }

  lemma Xoauth2Layout(id: string, secret: string)
    ensures "user=" + id + "\U{1}auth=Bearer " + secret + "\U{1}\U{1}"
         == "user=" + (id + ['\U{1}'] + ("auth=Bearer " + secret + ['\U{1}'] + "\U{1}"))
  {
  }

  lemma UserField(id: string, auth: string)
    requires |auth| > 1
    ensures ParseXoauth2("user=" + (id + ['\U{1}'] + auth))
         == if '\U{1}' in id then None
            else match ParseBearer(auth) case None => None case Some(token) => Some(Credentials(id, token))
  {
    hide ParseBearer, Find;
    var text := "user=" + (id + ['\U{1}'] + auth);
    assert text[5..] == id + ['\U{1}'] + auth;
    FindSeparator(id, '\U{1}', auth);
    if '\U{1}' !in id {
      assert text[5..5 + |id|] == id && text[5 + |id| + 1..] == auth;
    } else {
      var k := Find(text[5..], '\U{1}').value;
      EarlySeparator(id[k + 1..], auth);
      assert text[5 + k + 1..] == id[k + 1..] + ['\U{1}'] + auth;
    }
  }

  /** An XOAUTH2 message gives back the credentials, or nothing at all if there is a separator in them. */
  lemma Xoauth2Message(credentials: Credentials)
    ensures var text := "user=" + credentials.authenticationIdentity + "\U{1}auth=Bearer " + credentials.secret + "\U{1}\U{1}";
            ParseXoauth2(text)
            == if '\U{1}' !in credentials.authenticationIdentity && '\U{1}' !in credentials.secret
               then Some(credentials) else None
  {
    hide ParseBearer, ParseXoauth2;
    var id, secret := credentials.authenticationIdentity, credentials.secret;
    Xoauth2Layout(id, secret);
    UserField(id, "auth=Bearer " + secret + ['\U{1}'] + "\U{1}");
    BearerToken(secret);
  }

  lemma ArgumentOf(mechanism: string, text: string, base64: Base64)
    requires Inverse(base64)
    ensures AuthArgument("AUTH " + mechanism + " " + base64.encode(text) + CRLF, mechanism, base64) == Some(text)
  {
    var command := "AUTH " + mechanism + " ";
    var line := "AUTH " + mechanism + " " + base64.encode(text) + CRLF;
    assert line == command + base64.encode(text) + CRLF;
    assert line[|command|..|line| - 2] == base64.encode(text) && line[|line| - 2..] == CRLF;
  }

  /** The first line of a PLAIN or XOAUTH2 exchange gives the server the credentials if they are free of the separator of
      the mechanism and, for PLAIN, not empty; otherwise it gives none at all. */
  lemma CredentialsArrive(credentials: Credentials, base64: Base64)
    requires Inverse(base64)
    ensures var plain := NewAuthCommand(Plain, credentials, None);
            && plain.Success?
            && var text := AuthArgument(plain.value.ToString(base64), "PLAIN", base64);
               && text.Some?
               && ParsePlain(text.value)
                  == if PlainField(credentials.authenticationIdentity) && PlainField(credentials.secret)
                     then Some(credentials) else None
    ensures var xoauth2 := NewAuthCommand(Xoauth2, credentials, None);
            && xoauth2.Success?
            && var text := AuthArgument(xoauth2.value.ToString(base64), "XOAUTH2", base64);
               && text.Some?
               && ParseXoauth2(text.value)
                  == if '\U{1}' !in credentials.authenticationIdentity && '\U{1}' !in credentials.secret
                     then Some(credentials) else None
  {
    hide AuthArgument, ParsePlain, ParseXoauth2, Inverse;
    PlainMessage(credentials);
    Xoauth2Message(credentials);
    ArgumentOf("PLAIN", NewAuthCommand(Plain, credentials, None).value.response.value, base64);
    ArgumentOf("XOAUTH2", NewAuthCommand(Xoauth2, credentials, None).value.response.value, base64);
  }

  /** An empty user name, a password with a NUL, a user with a U+0001: the messages that go out for them are not read. */
  lemma NotCarried()
    ensures Plain.Response(Credentials("", "x"), None) == Success("\0\0x") && ParsePlain("\0\0x") == None
    ensures Plain.Response(Credentials("user", "pass\0word"), None) == Success("\0user\0pass\0word")
    ensures ParsePlain("\0user\0pass\0word") == None
    ensures Xoauth2.Response(Credentials("us\U{1}er", "token"), None)
         == Success("user=us\U{1}er\U{1}auth=Bearer token\U{1}\U{1}")
    ensures ParseXoauth2("user=us\U{1}er\U{1}auth=Bearer token\U{1}\U{1}") == None
  {
    hide ParsePlain, ParseXoauth2;
    EmptyUser();
    NulInside();
    UserSeparatorInside();
  }

  lemma EmptyUser()
    ensures "\0" + "" + "\0" + "x" == "\0\0x" && ParsePlain("\0\0x") == None
  {
    hide ParsePlain;
    PlainMessage(Credentials("", "x"));
    assert "\0" + "" + "\0" + "x" == "\0\0x";
  }

  lemma NulInside()
    ensures "\0" + "user" + "\0" + "pass\0word" == "\0user\0pass\0word"
    ensures ParsePlain("\0user\0pass\0word") == None
  {
    hide ParsePlain;
    PlainMessage(Credentials("user", "pass\0word"));
    assert "\0" + "user" + "\0" + "pass\0word" == "\0user\0pass\0word" && "pass\0word"[4] == '\0';
  }

  lemma UserSeparatorInside()
    ensures "user=" + "us\U{1}er" + "\U{1}auth=Bearer " + "token" + "\U{1}\U{1}"
         == "user=us\U{1}er\U{1}auth=Bearer token\U{1}\U{1}"
    ensures ParseXoauth2("user=us\U{1}er\U{1}auth=Bearer token\U{1}\U{1}") == None
  {
    hide ParseXoauth2;
    Xoauth2Message(Credentials("us\U{1}er", "token"));
    assert "user=" + "us\U{1}er" + "\U{1}auth=Bearer " + "token" + "\U{1}\U{1}"
        == "user=us\U{1}er\U{1}auth=Bearer token\U{1}\U{1}" && "us\U{1}er"[2] == '\U{1}';
  }
}
