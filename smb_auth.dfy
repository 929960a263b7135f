/**
 * One authentication attempt (`authenticate_smb`): open a session, connect,
 * list the shares, and classify what happened into the triple
 * `(success, shares, error)`. The SMB library is replaced by a description of
 * how it behaves for this session (`Server`); the calls made on the session
 * are returned as a log so that its release in `finally` can be stated.
 */
module SmbAuth {
  import opened Wrappers
  import opened PyStr

  /** The text the SMB library raises with when the server rejects the credentials. */
  const InvalidAuthMessage: string := "SMB connection not authenticated"

  /** The error reported when `connect` returns false. */
  const EstablishFailure: string := "Failed to establish SMB session"

  /** The sentinel has no surrounding whitespace, so an exception raised with exactly that text matches it. */
  lemma SentinelStripped()
    ensures Strip(InvalidAuthMessage) == InvalidAuthMessage
  {
    var m := InvalidAuthMessage;
    assert m[..0] == [] && m[|m|..] == [] && m[0..|m|] == m;
    assert IsStripped(m) by { assert m[0] == 'S' && m[|m| - 1] == 'd'; }
    StripUnique(m, 0, |m|);
  }

  /** A share descriptor returned by `listShares`; only its name is read. */
  datatype SharedDevice = SharedDevice(name: string)

  /** What `connect` does: return a flag, or raise an exception with the given text. */
  datatype ConnectReply = Connected(ok: bool) | ConnectRaised(message: string)

  /** What `listShares` does: return the descriptors in order, or raise. */
  datatype ListReply = Listed(devices: seq<SharedDevice>) | ListRaised(message: string)

  /** How the server and the SMB library behave for one session. */
  datatype Server = Server(connect: ConnectReply, listShares: ListReply)

  /** A call made on the session object. */
  datatype Call = Connect | ListShares | Close

  /** The triple `(success, shares, error)` that `authenticate_smb` returns. */
  datatype AuthResult = AuthResult(success: bool, shares: seq<string>, error: Option<string>)

  /** One attempt: its result and the calls it made on its session, in order. */
  datatype Attempt = Attempt(result: AuthResult, calls: seq<Call>)

  /** The names of the listed shares, in the order returned. */
  function ShareNames(devices: seq<SharedDevice>): seq<string>
  {
    seq(|devices|, k requires 0 <= k < |devices| => devices[k].name)
  }

  /** The `except` clause, for an exception whose text is `message`. */
  function Handle(message: string): AuthResult
  {
    var text := Strip(message);
    if text == InvalidAuthMessage then AuthResult(false, [], None)
    else AuthResult(false, [], Some(text))
  }

  /** The `try` block: its result and the calls it made before `finally` runs. */
  function TryBlock(server: Server): (AuthResult, seq<Call>)
  {
    match server.connect
    case ConnectRaised(message) => (Handle(message), [Connect])
    case Connected(ok) =>
      if !ok then (AuthResult(false, [], Some(EstablishFailure)), [Connect])
      else match server.listShares
        case ListRaised(message) => (Handle(message), [Connect, ListShares])
        case Listed(devices) => (AuthResult(true, ShareNames(devices), None), [Connect, ListShares])
  }

  /**
   * `authenticate_smb`: the `try` block followed by `connection.close()`.
   */
  function AuthenticateSmb(server: Server): Attempt
  {
    var (result, calls) := TryBlock(server);
    Attempt(result, calls + [Close])
  }

  /**
   * Every exit path releases the session: it is connected first and closed
   * exactly once, last, and the shares are consulted exactly when `connect`
   * returned true.
   */
  lemma SessionReleased(server: Server)
    ensures var calls := AuthenticateSmb(server).calls;
      && |calls| >= 2 && calls[0] == Connect && calls[|calls| - 1] == Close
      && multiset(calls)[Connect] == 1 && multiset(calls)[Close] == 1
      && (ListShares in calls <==> server.connect == Connected(true))
  {
  }

  /** The text of the exception that reaches the `except` clause, if one is raised. */
  function RaisedMessage(server: Server): Option<string>
  {
    match server.connect
    case ConnectRaised(message) => Some(message)
    case Connected(ok) =>
      if ok && server.listShares.ListRaised? then Some(server.listShares.message) else None
  }

  /**
   * When `connect` returns false the attempt fails with the establishment
   * error, `listShares` is never called, and what it would have done is irrelevant.
   */
  lemma ConnectFalseResult(listing: ListReply, other: ListReply)
    ensures AuthenticateSmb(Server(Connected(false), listing)).result
         == AuthResult(false, [], Some(EstablishFailure))
    ensures AuthenticateSmb(Server(Connected(false), listing)).calls == [Connect, Close]
    ensures AuthenticateSmb(Server(Connected(false), listing))
         == AuthenticateSmb(Server(Connected(false), other))
  {
  }

  /** A successful listing yields the share names in order, duplicates kept, and no error. */
  lemma ListingResult(devices: seq<SharedDevice>)
    ensures var r := AuthenticateSmb(Server(Connected(true), Listed(devices))).result;
      && r.success && r.error == None
      && |r.shares| == |devices|
      && forall k :: 0 <= k < |devices| ==> r.shares[k] == devices[k].name
  {
  }

  /**
   * An exception from either step whose stripped text is the sentinel yields
   * `(False, [], None)`; any other exception yields `(False, [], stripped text)`.
   */
  lemma RaisedResult(server: Server)
    requires RaisedMessage(server).Some?
    ensures var text := Strip(RaisedMessage(server).value);
      AuthenticateSmb(server).result
        == if text == InvalidAuthMessage then AuthResult(false, [], None)
           else AuthResult(false, [], Some(text))
  {
  }

  /**
   * Every outcome of the collaborator falls in exactly one of the four cases of
   * the `try` block; success means the listing succeeded, a failure carries no
   * shares and a success no error.
   */
  lemma ResultCases(server: Server)
    ensures var r := AuthenticateSmb(server).result;
      && (r.success <==> server.connect == Connected(true) && server.listShares.Listed?)
      && (!r.success ==> r.shares == [])
      && (r.success ==> r.error == None)
    ensures var r := AuthenticateSmb(server).result;
      || (server.connect == Connected(false) && r == AuthResult(false, [], Some(EstablishFailure)))
      || (RaisedMessage(server).Some? && r == Handle(RaisedMessage(server).value))
      || (server.connect == Connected(true) && server.listShares.Listed?
          && r == AuthResult(true, ShareNames(server.listShares.devices), None))
    ensures server.connect == Connected(false) ==> RaisedMessage(server) == None
    ensures RaisedMessage(server).Some? ==> !(server.connect == Connected(true) && server.listShares.Listed?)
  {
  }
}
