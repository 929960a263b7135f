/**
 * The sweep (`brute_force`) and the guard in `main`: every username is tried
 * with every password, password varying fastest, and each attempt is reported
 * on standard output, which is modelled as the sequence of texts passed to
 * `print`, one per call.
 */
module Sweep {
  import opened Wrappers
  import opened PyStr
  import opened SmbAuth
  import opened Wordlist

  datatype Credential = Credential(username: string, password: string)

  /** How a report line classifies one attempt. */
  datatype Verdict = Valid(shares: seq<string>) | Invalid | ProtocolError(message: string)

  /**
   * The branch on the triple: success first, then a truthy error (present and
   * non-empty); everything else, an empty error text included, is invalid.
   */
  function Interpret(r: AuthResult): Verdict
  {
    if r.success then Valid(r.shares)
    else if r.error.Some? && r.error.value != "" then ProtocolError(r.error.value)
    else Invalid
  }

  /**
   * Python truthiness on the triple: valid iff successful (with its shares);
   * an error iff not successful and the error text is present and non-empty
   * (carrying that text); invalid otherwise.
   */
  lemma InterpretCases(r: AuthResult)
    ensures Interpret(r) == Valid(r.shares) <==> r.success
    ensures Interpret(r).ProtocolError? <==> !r.success && r.error.Some? && r.error.value != ""
    ensures Interpret(r).ProtocolError? ==> r.error == Some(Interpret(r).message)
    ensures Interpret(r) == Invalid <==> !r.success && (r.error == None || r.error == Some(""))
  {
  }

  /** The verdict for one attempt against a server that behaves as `server`. */
  function Classify(server: Server): Verdict
  {
    Interpret(AuthenticateSmb(server).result)
  }

  /**
   * Exactly one verdict per attempt, characterised by the collaborator:
   * valid iff the listing succeeded; invalid iff an exception was raised whose
   * stripped text is the sentinel or empty; a protocol error otherwise.
   */
  lemma ClassifyCases(server: Server)
    ensures Classify(server).Valid? <==> server.connect == Connected(true) && server.listShares.Listed?
    ensures Classify(server).Valid? ==> Classify(server).shares == ShareNames(server.listShares.devices)
    ensures Classify(server) == Invalid <==>
      RaisedMessage(server).Some? && Strip(RaisedMessage(server).value) in {InvalidAuthMessage, ""}
    ensures Classify(server).ProtocolError? <==>
      || server.connect == Connected(false)
      || (RaisedMessage(server).Some? && Strip(RaisedMessage(server).value) !in {InvalidAuthMessage, ""})
    ensures server.connect == Connected(false) ==> Classify(server) == ProtocolError(EstablishFailure)
    ensures Classify(server).ProtocolError? && server.connect != Connected(false) ==>
      Classify(server).message == Strip(RaisedMessage(server).value)
  {
  }

  /** An exception whose text strips to nothing is reported as invalid, not as an error. */
  lemma BlankErrorIsInvalid(server: Server)
    requires RaisedMessage(server).Some? && AllSpace(RaisedMessage(server).value)
    ensures AuthenticateSmb(server).result == AuthResult(false, [], Some(""))
    ensures Classify(server) == Invalid
  {
    StripShape(RaisedMessage(server).value);
  }

  /** The texts printed for one attempt, one per `print` call. */
  function Render(c: Credential, v: Verdict): (lines: seq<string>)
    ensures 1 <= |lines| <= 2
    ensures |lines| == 2 <==> v.Valid? && v.shares != []
  {
    var pair := c.username + ":" + c.password;
    match v
    case Valid(shares) =>
      ["VALID: " + pair] + (if shares != [] then ["  Shares: " + Join(shares, ", ")] else [])
    case ProtocolError(message) => ["ERROR: " + pair + " -> " + message]
    case Invalid => ["INVALID: " + pair]
  }

  predicate StartsWith(s: string, prefix: string) {
    |prefix| <= |s| && s[..|prefix|] == prefix
  }

  /** The first line printed for an attempt tells its verdict apart from the other two. */
  lemma RenderHead(c: Credential, v: Verdict)
    ensures var head := Render(c, v)[0];
      && (StartsWith(head, "VALID: ") <==> v.Valid?)
      && (StartsWith(head, "INVALID: ") <==> v.Invalid?)
      && (StartsWith(head, "ERROR: ") <==> v.ProtocolError?)
  {
    var head := Render(c, v)[0];
    var pair := c.username + ":" + c.password;
    match v
    case Valid(_) =>
      assert head == "VALID: " + pair;
      assert head[..7] == "VALID: ";
      assert head[0] == 'V';
    case ProtocolError(m) =>
      assert head == "ERROR: " + pair + " -> " + m;
      assert head[..7] == "ERROR: ";
      assert head[0] == 'E';
    case Invalid =>
      assert head == "INVALID: " + pair;
      assert head[..9] == "INVALID: ";
      assert head[0] == 'I';
  }

  /** The pairs of one username with every password, in password order. */
  function Row(username: string, passwords: seq<string>): seq<Credential>
  {
    seq(|passwords|, j requires 0 <= j < |passwords| => Credential(username, passwords[j]))
  }

  /** The pairs in the order the two nested loops visit them. */
  function Product(usernames: seq<string>, passwords: seq<string>): seq<Credential>
  {
    if usernames == [] then []
    else
      var n := |usernames| - 1;
      Product(usernames[..n], passwords) + Row(usernames[n], passwords)
  }

  /** The sweep makes one attempt per pair. */
  lemma {:induction false} ProductLength(usernames: seq<string>, passwords: seq<string>)
    ensures |Product(usernames, passwords)| == |usernames| * |passwords|
  {
    if usernames != [] {
      var n := |usernames| - 1;
      ProductLength(usernames[..n], passwords);
      calc {
        |Product(usernames, passwords)|;
        n * |passwords| + |passwords|;
        (n + 1) * |passwords|;
      }
    }
  }

  /** Row-major order: attempt `i * |passwords| + j` is `(usernames[i], passwords[j])`. */
  lemma {:induction false} ProductAt(usernames: seq<string>, passwords: seq<string>, i: nat, j: nat)
    requires i < |usernames| && j < |passwords|
    ensures i * |passwords| + j < |Product(usernames, passwords)|
    ensures Product(usernames, passwords)[i * |passwords| + j] == Credential(usernames[i], passwords[j])
  {
    var n := |usernames| - 1;
    var init := usernames[..n];
    var prefix := Product(init, passwords);
    ProductLength(init, passwords);
    ProductLength(usernames, passwords);
    if i < n {
      ProductAt(init, passwords, i, j);
    } else {
      assert i * |passwords| + j == |prefix| + j;
    }
  }

  /** The texts printed for attempting `c`. */
  function Report(c: Credential, oracle: Credential -> Server): (lines: seq<string>)
    ensures 1 <= |lines| <= 2
  {
    Render(c, Classify(oracle(c)))
  }

  /** The texts printed for a sequence of attempts, given those printed for each. */
  function Transcript(attempts: seq<Credential>, report: Credential -> seq<string>): seq<string>
  {
    if attempts == [] then []
    else
      var n := |attempts| - 1;
      Transcript(attempts[..n], report) + report(attempts[n])
  }

  /** The transcript of a sweep is the transcripts of its parts, one after the other. */
  lemma {:induction false} TranscriptAppend(a: seq<Credential>, b: seq<Credential>, report: Credential -> seq<string>)
    ensures Transcript(a + b, report) == Transcript(a, report) + Transcript(b, report)
  {
    if b == [] {
      assert a + b == a;
    } else {
      var n := |b| - 1;
      assert (a + b)[..|a| + n] == a + b[..n];
      TranscriptAppend(a, b[..n], report);
    }
  }

  /** What the sweep prints for the given attempts, in attempt order. */
  function Output(attempts: seq<Credential>, oracle: Credential -> Server): seq<string>
  {
    Transcript(attempts, c => Report(c, oracle))
  }

  /** The report of a sweep is the reports of its parts, one after the other. */
  lemma OutputAppend(a: seq<Credential>, b: seq<Credential>, oracle: Credential -> Server)
    ensures Output(a + b, oracle) == Output(a, oracle) + Output(b, oracle)
  {
    TranscriptAppend(a, b, c => Report(c, oracle));
  }

  /** One more attempt prints its own texts after everything printed before. */
  lemma OutputSnoc(attempts: seq<Credential>, c: Credential, oracle: Credential -> Server)
    ensures Output(attempts + [c], oracle) == Output(attempts, oracle) + Report(c, oracle)
  {
    assert (attempts + [c])[..|attempts|] == attempts;
  }

  /** Extending the inner loop by one password extends the visited pairs by one. */
  lemma RowSnoc(username: string, passwords: seq<string>, j: nat)
    requires j < |passwords|
    ensures Row(username, passwords[..j + 1]) == Row(username, passwords[..j]) + [Credential(username, passwords[j])]
  {
  }

  /** Finishing the inner loop for username `i` extends the product by its row. */
  lemma ProductSnoc(usernames: seq<string>, passwords: seq<string>, i: nat)
    requires i < |usernames|
    ensures Product(usernames[..i + 1], passwords) == Product(usernames[..i], passwords) + Row(usernames[i], passwords)
  {
    assert usernames[..i + 1][..i] == usernames[..i];
  }

  /** Each attempt makes one or two `print` calls. */
  lemma {:induction false} OutputLength(attempts: seq<Credential>, oracle: Credential -> Server)
    ensures |attempts| <= |Output(attempts, oracle)| <= 2 * |attempts|
  {
    if attempts != [] {
      var n := |attempts| - 1;
      OutputLength(attempts[..n], oracle);
      var lines := Report(attempts[n], oracle);
      assert 1 <= |lines| <= 2;
    }
  }

  /** The calls made on all the sessions of the attempts, in order. */
  function SessionLog(attempts: seq<Credential>, oracle: Credential -> Server): seq<Call>
  {
    if attempts == [] then []
    else
      var n := |attempts| - 1;
      SessionLog(attempts[..n], oracle) + AuthenticateSmb(oracle(attempts[n])).calls
  }

  /** Across a sweep, as many sessions are closed as are connected: one per attempt. */
  lemma {:induction false} SessionsReleased(attempts: seq<Credential>, oracle: Credential -> Server)
    ensures multiset(SessionLog(attempts, oracle))[Connect] == |attempts|
    ensures multiset(SessionLog(attempts, oracle))[Close] == |attempts|
  {
    if attempts != [] {
      var n := |attempts| - 1;
      SessionsReleased(attempts[..n], oracle);
      var calls := AuthenticateSmb(oracle(attempts[n])).calls;
      SessionReleased(oracle(attempts[n]));
      assert multiset(SessionLog(attempts, oracle)) == multiset(SessionLog(attempts[..n], oracle)) + multiset(calls);
    }
  }

  /**
   * `brute_force`. `oracle` says how the server behaves for each pair (the
   * server address, domain, port and timeout are fixed for a sweep). Returns
   * the texts printed and the pairs attempted, one classification each.
   */
  method BruteForce(usernames: seq<string>, passwords: seq<string>, oracle: Credential -> Server)
    returns (stdout: seq<string>, attempts: seq<Credential>)
    ensures attempts == Product(usernames, passwords)
    ensures stdout == Output(attempts, oracle)
  {
    stdout, attempts := [], [];
    for i := 0 to |usernames|
      invariant attempts == Product(usernames[..i], passwords)
      invariant stdout == Output(attempts, oracle)
    {
      ProductSnoc(usernames, passwords, i);
      for j := 0 to |passwords|
        invariant attempts == Product(usernames[..i], passwords) + Row(usernames[i], passwords[..j])
        invariant stdout == Output(attempts, oracle)
      {
        var c := Credential(usernames[i], passwords[j]);
        RowSnoc(usernames[i], passwords, j);
        OutputSnoc(attempts, c, oracle);
        stdout := stdout + Report(c, oracle);
        attempts := attempts + [c];
      }
    }
    assert usernames[..|usernames|] == usernames;
  }

  /** How a run of the program ends. */
  datatype Run = Completed(stdout: seq<string>, attempts: seq<Credential>) | ConfigError(message: string)

  /**
   * `main`, from the lines of the two word list files on: load both lists,
   * refuse an empty one before any attempt, then sweep.
   */
  method RunSweep(usernamesPath: string, passwordsPath: string,
                  usernameLines: seq<string>, passwordLines: seq<string>,
                  oracle: Credential -> Server)
    returns (run: Run)
    ensures var us := LoadWordlist(usernameLines);
            var ps := LoadWordlist(passwordLines);
      && (us == [] ==> run == ConfigError("No usernames were loaded from " + usernamesPath))
      && (us != [] && ps == [] ==> run == ConfigError("No passwords were loaded from " + passwordsPath))
      && (us != [] && ps != [] ==>
            && run.Completed?
            && run.attempts == Product(us, ps)
            && run.attempts != []
            && run.stdout == Output(run.attempts, oracle))
  {
    var usernames := LoadWordlist(usernameLines);
    var passwords := LoadWordlist(passwordLines);
    if usernames == [] {
      return ConfigError("No usernames were loaded from " + usernamesPath);
    }
    if passwords == [] {
      return ConfigError("No passwords were loaded from " + passwordsPath);
    }
    var stdout, attempts := BruteForce(usernames, passwords, oracle);
    ProductAt(usernames, passwords, 0, 0);
    run := Completed(stdout, attempts);
  }

  /**
   * A server that accepts only admin/1234, listing the shares C$ and Users,
   * and rejects everyone else by raising `rejection` from `listShares`.
   */
  function AdminOnly(rejection: string): Credential -> Server
  {
    c => if c == Credential("admin", "1234")
         then Server(Connected(true), Listed([SharedDevice("C$"), SharedDevice("Users")]))
         else Server(Connected(true), ListRaised(rejection))
  }

  lemma AdminReport(rejection: string)
    ensures Report(Credential("admin", "1234"), AdminOnly(rejection)) == ["VALID: admin:1234", "  Shares: C$, Users"]
  {
    assert ShareNames([SharedDevice("C$"), SharedDevice("Users")]) == ["C$", "Users"];
    assert Classify(AdminOnly(rejection)(Credential("admin", "1234"))) == Valid(["C$", "Users"]);
    assert Join(["C$", "Users"], ", ") == "C$, Users" by {
      assert ["C$", "Users"][1..] == ["Users"];
    }
    assert "admin" + ":" + "1234" == "admin:1234";
    assert "VALID: " + "admin:1234" == "VALID: admin:1234";
    assert "  Shares: " + "C$, Users" == "  Shares: C$, Users";
  }

  lemma GuestReport(rejection: string)
    requires Strip(rejection) == InvalidAuthMessage
    ensures Report(Credential("guest", "1234"), AdminOnly(rejection)) == ["INVALID: guest:1234"]
  {
    assert "guest"[0] != "admin"[0];
    assert Classify(AdminOnly(rejection)(Credential("guest", "1234"))) == Invalid;
    assert "guest" + ":" + "1234" == "guest:1234";
    assert "INVALID: " + "guest:1234" == "INVALID: guest:1234";
  }

  /** The sweep of two usernames and one password visits admin, then guest. */
  lemma AdminGuestAttempts()
    ensures Product(["admin", "guest"], ["1234"]) == [Credential("admin", "1234"), Credential("guest", "1234")]
  {
    ProductAt(["admin", "guest"], ["1234"], 0, 0);
    ProductAt(["admin", "guest"], ["1234"], 1, 0);
  }

  /** A sweep of two attempts prints the first one's lines, then the second one's. */
  lemma OutputPair(a: Credential, b: Credential, oracle: Credential -> Server)
    ensures Output([a, b], oracle) == Report(a, oracle) + Report(b, oracle)
  {
    OutputSnoc([], a, oracle);
    OutputSnoc([a], b, oracle);
    assert [a] + [b] == [a, b];
  }

  /**
   * Two usernames and one password against a server that accepts only
   * admin/1234 and rejects guest with the sentinel: a valid line with its
   * shares, then an invalid line.
   */
  lemma AdminGuestScenario(rejection: string)
    requires Strip(rejection) == InvalidAuthMessage
    ensures Output(Product(["admin", "guest"], ["1234"]), AdminOnly(rejection))
         == ["VALID: admin:1234", "  Shares: C$, Users", "INVALID: guest:1234"]
  {
    AdminGuestAttempts();
    OutputPair(Credential("admin", "1234"), Credential("guest", "1234"), AdminOnly(rejection));
    AdminReport(rejection);
    GuestReport(rejection);
  }
}
