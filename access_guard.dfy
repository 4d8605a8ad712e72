/** The access guard of the HTTP server: one optional shared credential,
    turned once into an HTTP Basic token (section 2 of RFC 7617), against
    which the Authorization header of every request is compared. */
module AccessGuard {
  import opened Wrappers
  import Utf8
  import Base64

  const Scheme := "Basic "

  /** The user-pass string of section 2 of RFC 7617, `'%s:%s' % (user, pass)`. */
  function UserPass(user: string, pass: string): string {
    user + ":" + pass
  }

  /** `"Basic " + base64.b64encode(bytes(user-pass, 'utf-8')).decode('ascii')`. */
  function BasicToken(user: string, pass: string): (token: string)
    ensures |token| > |Scheme| && token[..|Scheme|] == Scheme
    ensures forall i :: |Scheme| <= i < |token| ==> Base64.IsAlphabet(token[i]) || token[i] == '='
  {
    var b := Utf8.Encode(UserPass(user, pass));
    assert |b| > 0 by {
      assert UserPass(user, pass) != [];
      assert Utf8.Encode(UserPass(user, pass)) == Utf8.EncodeChar(UserPass(user, pass)[0]) + Utf8.Encode(UserPass(user, pass)[1..]);
    }
    Base64.EncodeLength(b);
    Base64.EncodeAlphabet(b);
    Scheme + Base64.Encode(b)
  }

  /** `need_auth`: `bool(self.auth)`, a credential is set and not empty. */
  predicate NeedAuth(auth: Option<string>) {
    auth.Some? && auth.value != ""
  }

  /** `not self.headers.get('Authorization')`: no header, or an empty one. */
  predicate HeaderMissing(header: Option<string>) {
    header.None? || header.value == ""
  }

  /** `check_auth`: open when no credential is set; otherwise a missing
      header fails and a present one must equal the token exactly. */
  function CheckAuth(auth: Option<string>, header: Option<string>): (ok: bool)
    ensures !NeedAuth(auth) ==> ok
    ensures NeedAuth(auth) ==> (ok <==> header == auth)
  {
    if !NeedAuth(auth) then true
    else if header.None? then false
    else auth.value == header.value
  }

  /** With a credential set, a missing (or empty) header never passes. */
  lemma MissingHeaderFails(auth: Option<string>, header: Option<string>)
    requires NeedAuth(auth) && HeaderMissing(header)
    ensures !CheckAuth(auth, header)
  {
  }

  /** The token is the credential, recoverable: its tail is the Base64 of
      the UTF-8 of "user:pass", which decodes back to that string. */
  lemma TokenCarriesCredential(user: string, pass: string)
    ensures Base64.Decode(BasicToken(user, pass)[|Scheme|..]) == Some(Utf8.Encode(UserPass(user, pass)))
    ensures Utf8.Decode(Utf8.Encode(UserPass(user, pass))) == Some(UserPass(user, pass))
  {
    var b := Utf8.Encode(UserPass(user, pass));
    assert BasicToken(user, pass)[|Scheme|..] == Base64.Encode(b);
    Base64.DecodeEncode(b);
    Utf8.DecodeEncode(UserPass(user, pass));
  }

  /** Two credentials give the same token only if their user-pass strings
      are the same. */
  lemma TokenInjective(user: string, pass: string, user': string, pass': string)
    requires BasicToken(user, pass) == BasicToken(user', pass')
    ensures UserPass(user, pass) == UserPass(user', pass')
  {
    TokenCarriesCredential(user, pass);
    TokenCarriesCredential(user', pass');
  }

  /** Once a credential is configured the guard is on, and a request
      passes exactly when it presents that credential's token. */
  lemma ConfiguredGuard(user: string, pass: string, header: Option<string>)
    ensures NeedAuth(Some(BasicToken(user, pass)))
    ensures CheckAuth(Some(BasicToken(user, pass)), header) <==> header == Some(BasicToken(user, pass))
  {
  }

  /** A client presenting the Basic token of some user and password gets in
      exactly when the user-pass string is the configured one. */
  lemma GuardAcceptsExactCredential(user: string, pass: string, user': string, pass': string)
    ensures CheckAuth(Some(BasicToken(user, pass)), Some(BasicToken(user', pass'))) <==>
            UserPass(user, pass) == UserPass(user', pass')
  {
    if CheckAuth(Some(BasicToken(user, pass)), Some(BasicToken(user', pass'))) {
      TokenInjective(user, pass, user', pass');
    }
  }
}
