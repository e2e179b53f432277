/** The server-side credential check of core/auth.go. A client hello carries
    an opaque credential blob, by convention the bytes of "login:password";
    StaticAuth accepts it when the login is a known key of its fixed table and
    the password part equals the stored password exactly. */
module Auth {
  import opened Text

  newtype byte = x: int | 0 <= x < 256

  /** The byte of ':' in ASCII and UTF-8. */
  const Colon: byte := 58

  /** The handshake message, reduced to the part the authenticator reads. */
  datatype ClientHello = ClientHello(AuthData: seq<byte>)

  /** `data` splits at position `i` into login and password: `i` holds the
      first colon of `data`. */
  predicate SplitsAt(data: seq<byte>, i: nat) {
    i < |data| && data[i] == Colon && Colon !in data[..i]
  }

  /** A fixed table login -> password. */
  datatype StaticAuth = StaticAuth(Allowed: map<seq<byte>, seq<byte>>) {

    /** Empty data and data without a colon are rejected; otherwise the data
        is split at its first colon into login and password, and accepted
        exactly when the table holds that login with that password. */
    function Authenticate(hello: ClientHello): (ok: bool)
      ensures |hello.AuthData| == 0 ==> !ok
      ensures Colon !in hello.AuthData ==> !ok
    {
      if |hello.AuthData| == 0 then false
      else
        var parts := SplitFirst(hello.AuthData, Colon);
        if |parts| != 2 then false
        else
          var login, password := parts[0], parts[1];
          login in Allowed && Allowed[login] == password
    }
  }

  /** Authentication in terms of positions: the blob is accepted exactly when
      it has a first colon whose prefix is a known login and whose suffix is
      that login's password. */
  lemma AuthenticateIff(st: StaticAuth, hello: ClientHello)
    ensures st.Authenticate(hello) <==>
      exists i: nat :: SplitsAt(hello.AuthData, i)
        && hello.AuthData[..i] in st.Allowed
        && st.Allowed[hello.AuthData[..i]] == hello.AuthData[i + 1..]
  {
    var data := hello.AuthData;
    if Colon in data {
      var parts := SplitFirst(data, Colon);
      var k := |parts[0]|;
      assert data[..k] == parts[0] && data[k + 1..] == parts[1];
      assert SplitsAt(data, k);
      forall i | SplitsAt(data, i) ensures i == k {
        FirstOccurrence(data, Colon, i);
        FirstOccurrence(data, Colon, k);
      }
    }
  }

  /** The split is at the first colon only: any colons after it belong to
      the password. */
  lemma CredentialsSplitAtFirstColon(st: StaticAuth, login: seq<byte>, password: seq<byte>)
    requires Colon !in login
    ensures st.Authenticate(ClientHello(login + [Colon] + password)) <==>
      login in st.Allowed && st.Allowed[login] == password
  {
    var data := login + [Colon] + password;
    JoinPieces(login, Colon, password);
    AuthenticateIff(st, ClientHello(data));
    if st.Authenticate(ClientHello(data)) {
      var i: nat :| SplitsAt(data, i) && data[..i] in st.Allowed && st.Allowed[data[..i]] == data[i + 1..];
      FirstOccurrence(data, Colon, i);
      FirstOccurrence(data, Colon, |login|);
    } else {
      assert SplitsAt(data, |login|);
    }
  }

  /** Every table entry whose login has no colon can log in with
      "login:password". */
  lemma AuthenticateRoundTrip(st: StaticAuth, login: seq<byte>)
    requires login in st.Allowed && Colon !in login
    ensures st.Authenticate(ClientHello(login + [Colon] + st.Allowed[login]))
  {
    CredentialsSplitAtFirstColon(st, login, st.Allowed[login]);
  }

  /** A known login with any password other than its stored one is rejected. */
  lemma WrongPasswordRejected(st: StaticAuth, login: seq<byte>, password: seq<byte>)
    requires login in st.Allowed && Colon !in login
    requires password != st.Allowed[login]
    ensures !st.Authenticate(ClientHello(login + [Colon] + password))
  {
    CredentialsSplitAtFirstColon(st, login, password);
  }

  /** A table key containing a colon can never be the login of an accepted
      blob: removing it from the table changes no decision. */
  lemma ColonKeyNeverMatches(st: StaticAuth, key: seq<byte>, hello: ClientHello)
    requires Colon in key
    ensures st.Authenticate(hello) == StaticAuth(st.Allowed - {key}).Authenticate(hello)
  {
    var data := hello.AuthData;
    if Colon in data && |data| > 0 {
      var parts := SplitFirst(data, Colon);
      assert parts[0] != key;
    }
  }
}
