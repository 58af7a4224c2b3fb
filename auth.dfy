/**
 * Login data and the session token derived from a login reply
 * (`LoginData::new`, `TokenCredential` and the studentId slice in `login`,
 * src/api.rs). The HTTP exchange itself is not modelled: a login reply arrives
 * already classified by the untagged `LoginResponse` enum.
 */
module Auth {
  import opened Wrappers

  datatype Credentials = Credentials(username: string, password: string)

  /** The body of the login POST. */
  datatype LoginData = LoginData(ident: string, uid: string, pass: string)

  /** The session token: the two server tokens and the derived student id. */
  datatype TokenCredential = TokenCredential(token: string, tokenAP: string, studentId: string)

  /** A login reply as `LoginResponse` classifies it: the payload is tried first, then the error. */
  datatype LoginReply =
    | LoginPayload(token: string, tokenAP: string, ident: string)
    | LoginError(message: string)
    | LoginMalformed

  /** Why a login ends the process: `exit(1)` on a refusal, a panic otherwise. */
  datatype LoginFailure = Rejected(message: string) | Unparseable | IdentSliceInvalid

  /** Both login fields carry the user name; the password goes in `pass`. */
  function NewLoginData(credentials: Credentials): (d: LoginData)
    ensures d.ident == d.uid == credentials.username
    ensures d.pass == credentials.password
  {
    LoginData(credentials.username, credentials.username, credentials.password)
  }

  predicate IsAscii(c: char)
  {
    c as int < 128
  }

  /**
   * `ident[1..ident.len() - 1]`: the byte slice that drops the first and the
   * last character. It panics when the ident is shorter than two characters,
   * and also when the first or last character is not a one-byte (ASCII)
   * character, since a `str` slice must fall on character boundaries.
   */
  function StudentIdOf(ident: string): (r: Result<string, LoginFailure>)
    ensures r.Ok? <==> |ident| >= 2 && IsAscii(ident[0]) && IsAscii(ident[|ident| - 1])
    ensures r.Err? ==> r.error == IdentSliceInvalid
    ensures r.Ok? ==> |r.value| == |ident| - 2
  {
    if |ident| >= 2 && IsAscii(ident[0]) && IsAscii(ident[|ident| - 1]) then
      Ok(ident[1..|ident| - 1])
    else
      Err(IdentSliceInvalid)
  }

  /** The student id is what lies between the ident's first and last character. */
  lemma StudentIdOfRoundTrip(ident: string)
    requires StudentIdOf(ident).Ok?
    ensures ident == [ident[0]] + StudentIdOf(ident).value + [ident[|ident| - 1]]
  {
    assert ident == ident[..1] + ident[1..|ident| - 1] + ident[|ident| - 1..];
  }

  /** The sample ident of the portal's students. */
  lemma StudentIdOfSample()
    ensures StudentIdOf("S12345S") == Ok("12345")
  {
    var ident := "S12345S";
    assert |ident| == 7 && ident[0] == 'S' && ident[6] == 'S';
    assert forall k :: 0 <= k < 5 ==> ident[1..6][k] == "12345"[k];
    assert ident[1..6] == "12345";
  }

  /** The token a login reply yields, or the reason the process stops. */
  function LoginResult(reply: LoginReply): (r: Result<TokenCredential, LoginFailure>)
    ensures r.Ok? <==> reply.LoginPayload? && StudentIdOf(reply.ident).Ok?
    ensures r.Ok? ==> r.value.token == reply.token && r.value.tokenAP == reply.tokenAP
    ensures reply.LoginError? ==> r == Err(Rejected(reply.message))
    ensures reply.LoginMalformed? ==> r == Err(Unparseable)
  {
    match reply
    case LoginPayload(token, tokenAP, ident) =>
      (match StudentIdOf(ident)
       case Ok(id) => Ok(TokenCredential(token, tokenAP, id))
       case Err(e) => Err(e))
    case LoginError(message) => Err(Rejected(message))
    case LoginMalformed => Err(Unparseable)
  }

  /** The student id of a successful login is the reply's ident without its first and last character. */
  lemma LoginResultStudentId(reply: LoginReply)
    requires LoginResult(reply).Ok?
    ensures [reply.ident[0]] + LoginResult(reply).value.studentId + [reply.ident[|reply.ident| - 1]] == reply.ident
  {
    StudentIdOfRoundTrip(reply.ident);
  }

  /**
   * `login` as the source writes it: an empty token record is created and its
   * fields are filled from the payload one by one.
   */
  method Login(reply: LoginReply) returns (r: Result<TokenCredential, LoginFailure>)
    ensures r == LoginResult(reply)
  {
    var tokenCredential := TokenCredential("", "", "");
    match reply {
      case LoginPayload(token, tokenAP, ident) =>
        tokenCredential := tokenCredential.(token := token);
        tokenCredential := tokenCredential.(tokenAP := tokenAP);
        var id := StudentIdOf(ident);
        if id.Err? {
          return Err(id.error);
        }
        tokenCredential := tokenCredential.(studentId := id.value);
      case LoginError(message) =>
        return Err(Rejected(message));
      case LoginMalformed =>
        return Err(Unparseable);
    }
    r := Ok(tokenCredential);
  }
}
