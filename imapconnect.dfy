/**
 * ConnectIMAP (config/imapclient.go): the environment checks, the
 * host:port split, the choice between an implicit-TLS dial (993) and a
 * plain dial upgraded with STARTTLS (143), and the login that is followed by
 * a logout when it fails. The server's answers are inputs; the calls made on
 * the client are recorded in order.
 */
module ImapConnect {
  import opened Wrappers
  import opened Ascii

  /** IMAP_SERVER, EMAIL_USERNAME and EMAIL_PASSWORD. */
  datatype Env = Env(imapServer: string, username: string, password: string)

  /** The error each step of the exchange meets, if any. */
  datatype Net = Net(dialError: Option<string>, startTlsError: Option<string>, loginError: Option<string>)

  /** A call made on the IMAP client library. */
  datatype Call =
    | DialTls(addr: string, serverName: string)
    | Dial(addr: string)
    | StartTls(serverName: string)
    | Login(username: string, password: string)
    | Logout

  /** ConnectIMAP's address check: exactly two parts means exactly one ':'. */
  lemma TwoPartsOneColon(s: string)
    ensures |Split(s, ':')| == 2 <==> Count(s, ':') == 1
  {
    SplitPieces(s, ':');
  }

  /* ---------- the connection ---------- */

  const MissingConfig: string := "\U{274C} Missing IMAP configuration. Check environment variables"
  const BadServerFormat: string := "\U{274C} Invalid IMAP_SERVER format. Expected format: hostname:port"

  /** What ConnectIMAP returns (the logged-in client, or its error) and the calls it made. */
  datatype Attempt = Attempt(result: Result<(), string>, calls: seq<Call>)

  /** The connection step for a port: dial over TLS, or dial and upgrade. */
  function Open(addr: string, host: string, port: string, net: Net): (a: Attempt)
    requires port == "993" || port == "143"
  {
    if port == "993" then
      Attempt(if net.dialError.Some? then Failure(net.dialError.value) else Success(()), [DialTls(addr, host)])
    else if net.dialError.Some? then Attempt(Failure(net.dialError.value), [Dial(addr)])
    else Attempt(if net.startTlsError.Some? then Failure(net.startTlsError.value) else Success(()), [Dial(addr), StartTls(host)])
  }

  function Connect(env: Env, net: Net): Attempt {
    if env.imapServer == "" || env.username == "" || env.password == "" then Attempt(Failure(MissingConfig), [])
    else
      var parts := Split(env.imapServer, ':');
      if |parts| != 2 then Attempt(Failure(BadServerFormat), [])
      else
        var host := parts[0];
        var port := parts[1];
        if port != "993" && port != "143" then Attempt(Failure("\U{274C} Unsupported IMAP port: " + port), [])
        else
          var conn := Open(env.imapServer, host, port, net);
          if conn.result.Failure? then
            Attempt(Failure("\U{274C} Failed to connect to IMAP server: " + conn.result.error), conn.calls)
          else if net.loginError.Some? then
            Attempt(Failure("\U{274C} IMAP login failed: " + net.loginError.value), conn.calls + [Login(env.username, env.password), Logout])
          else Attempt(Success(()), conn.calls + [Login(env.username, env.password)])
  }

  /** The client object: the calls made on it so far and whether it is logged in. */
  class Client {
    var calls: seq<Call>
    var loggedIn: bool

    constructor (first: Call)
      ensures calls == [first] && !loggedIn
    {
      calls := [first];
      loggedIn := false;
    }

    method StartTls(serverName: string, answer: Option<string>) returns (err: Option<string>)
      modifies this
      ensures calls == old(calls) + [Call.StartTls(serverName)] && loggedIn == old(loggedIn) && err == answer
    {
      calls := calls + [Call.StartTls(serverName)];
      err := answer;
    }

    method Login(username: string, password: string, answer: Option<string>) returns (err: Option<string>)
      modifies this
      ensures calls == old(calls) + [Call.Login(username, password)] && loggedIn == answer.None? && err == answer
    {
      calls := calls + [Call.Login(username, password)];
      loggedIn := answer.None?;
      err := answer;
    }

    method Logout()
      modifies this
      ensures calls == old(calls) + [Call.Logout] && !loggedIn
    {
      calls := calls + [Call.Logout];
      loggedIn := false;
    }
  }

  /**
   * ConnectIMAP. `client` is the client object the library handed out (None
   * when no dial was made); on success it is returned logged in.
   */
  method ConnectImap(env: Env, net: Net) returns (r: Result<Client, string>, client: Option<Client>)
    ensures client.None? <==> Connect(env, net).calls == []
    ensures client.Some? ==> client.value.calls == Connect(env, net).calls
    ensures r.Success? <==> Connect(env, net).result.Success?
    ensures r.Failure? ==> r.error == Connect(env, net).result.error
    ensures r.Success? ==> client == Some(r.value) && r.value.loggedIn
  {
    client := None;
    if env.imapServer == "" || env.username == "" || env.password == "" {
      return Failure(MissingConfig), client;
    }
    var parts := Split(env.imapServer, ':');
    if |parts| != 2 {
      return Failure(BadServerFormat), client;
    }
    var host, port := parts[0], parts[1];
    var c: Client;
    var err: Option<string>;
    if port == "993" {
      c := new Client(DialTls(env.imapServer, host));
      err := net.dialError;
    } else if port == "143" {
      c := new Client(Dial(env.imapServer));
      err := net.dialError;
      if err.None? {
        err := c.StartTls(host, net.startTlsError);
      }
    } else {
      return Failure("\U{274C} Unsupported IMAP port: " + port), client;
    }
    client := Some(c);
    if err.Some? {
      return Failure("\U{274C} Failed to connect to IMAP server: " + err.value), client;
    }
    err := c.Login(env.username, env.password, net.loginError);
    if err.Some? {
      c.Logout();
      return Failure("\U{274C} IMAP login failed: " + err.value), client;
    }
    return Success(c), client;
  }

  /** A missing setting or a malformed address is reported before anything is dialled. */
  lemma ChecksBeforeDial(env: Env, net: Net)
    ensures env.imapServer == "" || env.username == "" || env.password == "" ==>
      Connect(env, net) == Attempt(Failure(MissingConfig), [])
    ensures env.imapServer != "" && env.username != "" && env.password != "" && Count(env.imapServer, ':') != 1 ==>
      Connect(env, net) == Attempt(Failure(BadServerFormat), [])
  {
    TwoPartsOneColon(env.imapServer);
  }

  /** The first call made: a TLS dial for port 993, a plain dial for 143, none for any other port. */
  lemma PortDispatch(env: Env, net: Net)
    requires env.imapServer != "" && env.username != "" && env.password != "" && |Split(env.imapServer, ':')| == 2
    ensures var parts := Split(env.imapServer, ':');
      var a := Connect(env, net);
      (parts[1] == "993" ==> a.calls[0] == DialTls(env.imapServer, parts[0]))
      && (parts[1] == "143" ==> a.calls[0] == Dial(env.imapServer))
      && (parts[1] != "993" && parts[1] != "143" ==> a == Attempt(Failure("\U{274C} Unsupported IMAP port: " + parts[1]), []))
  {
  }

  /** STARTTLS is sent only on port 143 and only after the plain dial succeeded. */
  lemma StartTlsOnlyAfterDial(env: Env, net: Net)
    ensures var a := Connect(env, net);
      (exists k :: 0 <= k < |a.calls| && a.calls[k].StartTls?) ==>
        net.dialError.None? && a.calls[0] == Dial(env.imapServer) && a.calls[1].StartTls?
  {
  }

  /** A failed dial or upgrade never reaches login; a failed login is always followed by a logout. */
  lemma LoginProtocol(env: Env, net: Net)
    ensures var a := Connect(env, net);
      (exists k :: 0 <= k < |a.calls| && a.calls[k].Login?) ==>
        net.dialError.None? && (a.calls[0].Dial? ==> net.startTlsError.None?)
    ensures var a := Connect(env, net);
      ((exists k :: 0 <= k < |a.calls| && a.calls[k].Login?) && net.loginError.Some?) ==>
        (a.calls[|a.calls| - 1] == Logout && a.result.Failure?)
  {
  }

  /** ConnectIMAP succeeds exactly when every check passes and every step of the exchange succeeds. */
  lemma ConnectSucceeds(env: Env, net: Net)
    ensures Connect(env, net).result.Success? <==>
      env.imapServer != "" && env.username != "" && env.password != "" && |Split(env.imapServer, ':')| == 2
      && var port := Split(env.imapServer, ':')[1];
         (port == "993" || port == "143") && net.dialError.None? && (port == "143" ==> net.startTlsError.None?)
         && net.loginError.None?
    ensures Connect(env, net).result.Success? ==>
      var calls := Connect(env, net).calls;
      calls[|calls| - 1] == Login(env.username, env.password) && forall k :: 0 <= k < |calls| ==> calls[k] != Logout
  {
  }
}
