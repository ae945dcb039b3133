/** http/handlers/auth_handler.cpp: basic authentication over an already parsed .htaccess. */
module Auth {
  import opened Text
  import opened Http
  import opened Base64

  datatype AuthResult = Granted | InvalidAuth | MissingAuth

  /** HtaccessAuth: the stored user and password, each base64-encoded. */
  datatype Htaccess = Htaccess(userB64: string, passwordB64: string)

  /** starts_with of request_handler_utils.cpp: the comparison ignores letter case. */
  predicate StartsWith(s: string, prefix: string) {
    ToLower(prefix) <= ToLower(s)
  }

  /** check_htaccess_and_auth; None is a directory without an .htaccess that asks for it. */
  function Check(htaccess: Option<Htaccess>, headers: Headers): AuthResult {
    if htaccess.None? then Granted
    else
      var header := GetHeader(headers, "authorization");
      if header == "" || !StartsWith(header, "basic ") then MissingAuth
      else
        StartsWithLength(header, "basic ");
        CheckCredentials(htaccess.value, Decode(header[6..]))
  }

  function CheckCredentials(stored: Htaccess, credentials: string): AuthResult {
    if credentials == "" then MissingAuth
    else
      var colon := IndexOf(credentials, ':');
      if colon == |credentials| then InvalidAuth
      else if credentials[..colon] != Decode(stored.userB64)
           || credentials[colon + 1..] != Decode(stored.passwordB64) then InvalidAuth
      else Granted
  }

  lemma StartsWithLength(s: string, prefix: string)
    requires StartsWith(s, prefix)
    ensures |prefix| <= |s|
  {}

  /** Access is granted exactly when the credentials are the stored user, a colon and the stored
      password; a stored user with a colon in it can never be matched. */
  lemma GrantedIff(stored: Htaccess, credentials: string)
    ensures CheckCredentials(stored, credentials).Granted? <==>
              && credentials == Decode(stored.userB64) + ":" + Decode(stored.passwordB64)
              && ':' !in Decode(stored.userB64)
  {
    hide Decode;
    var user, password := Decode(stored.userB64), Decode(stored.passwordB64);
    var colon := IndexOf(credentials, ':');
    if colon < |credentials| {
      assert credentials == credentials[..colon] + ":" + credentials[colon + 1..];
    }
    if credentials == user + ":" + password && ':' !in user {
      IndexOfIs(credentials, ':', |user|);
      assert credentials[..|user|] == user && credentials[|user| + 1..] == password;
    }
  }

  /** Section 2 of RFC 7617: the scheme in any letter case, a space, and the encoded pair, into
      which white space may have been put. Against a stored pair, encoded the same way, it is
      granted exactly when both parts are equal. */
  lemma BasicExact(headers: Headers, scheme: string, sent: string, user: string, password: string,
                   storedUser: string, storedPassword: string)
    requires IsBytes(user) && IsBytes(password) && IsBytes(storedUser) && IsBytes(storedPassword)
    requires ':' !in user && ':' !in storedUser
    requires ToLower(scheme) == "basic" && IsBytes(user + ":" + password)
    requires WithoutSpaces(sent) == Encode(user + ":" + password)
    requires GetHeader(headers, "authorization") == scheme + " " + sent
    ensures Check(Some(Htaccess(Encode(storedUser), Encode(storedPassword))), headers) ==
            if user == storedUser && password == storedPassword then Granted else InvalidAuth
  {
    var header := scheme + " " + sent;
    var stored := Htaccess(Encode(storedUser), Encode(storedPassword));
    assert StartsWith(header, "basic ") && header[6..] == sent by { SchemeAccepted(scheme, sent); }
    hide Decode, Encode, WithoutSpaces, StartsWith, CheckCredentials;
    assert Decode(sent) == user + ":" + password by { Base64Undo(user + ":" + password, sent); }
    EncodeHasNoSpaces(storedUser);
    EncodeHasNoSpaces(storedPassword);
    Base64Undo(storedUser, stored.userB64);
    Base64Undo(storedPassword, stored.passwordB64);
    GrantedIff(stored, user + ":" + password);
    SamePair(user, password, storedUser, storedPassword);
    NeverMissing(stored, user, password);
  }

  lemma SchemeAccepted(scheme: string, sent: string)
    requires ToLower(scheme) == "basic"
    ensures StartsWith(scheme + " " + sent, "basic ") && (scheme + " " + sent)[6..] == sent
  {
    var header := scheme + " " + sent;
    assert |scheme| == 5;
    forall i | 0 <= i < 6 ensures ToLower(header)[i] == ToLower("basic ")[i] {
      if i < 5 { assert ToLower(scheme)[i] == "basic"[i]; }
    }
    assert ToLower(header)[..6] == ToLower("basic ");
  }

  lemma SamePair(u: string, p: string, u': string, p': string)
    requires ':' !in u && ':' !in u'
    ensures u + ":" + p == u' + ":" + p' <==> u == u' && p == p'
  {
    var s, t := u + ":" + p, u' + ":" + p';
    if s == t {
      IndexOfIs(s, ':', |u|);
      IndexOfIs(t, ':', |u'|);
      assert u == s[..|u|] && u' == t[..|u'|] && p == s[|u| + 1..] && p' == t[|u'| + 1..];
    }
  }

  lemma NeverMissing(stored: Htaccess, user: string, password: string)
    ensures !CheckCredentials(stored, user + ":" + password).MissingAuth?
  {
    hide Decode;
  }
}
