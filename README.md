# SMB credential sweep, modelled in Dafny

`smb_brute_auth.py` tries every username from one word list with every
password from another against an SMB server. For each pair it makes one
classification `print` call:

- `VALID: u:p`, followed by the share names when there are any;
- `ERROR: u:p -> e` for a protocol error;
- `INVALID: u:p` for a rejected credential.

This project models the four pieces that carry its logic:

- `authenticate_smb`, module `SmbAuth` (`smb_auth.dfy`). The SMB library is
  replaced by a `Server` value that says what `connect` and `listShares` do
  for the session: return normally, or raise with a given text. The function
  returns the triple `(success, shares, error)` together with the log of the
  calls made on the session. That log is how `connection.close()` in the
  `finally` clause is stated and proved to happen on every path.
- `load_wordlist`, module `Wordlist` (`wordlist.dfy`), over the lines
  already read from the file.
- `brute_force`, module `Sweep` (`sweep.dfy`). It is a method with the two
  nested loops. Standard output is returned as a sequence with one element
  per `print` call (the real output is each element followed by a newline;
  an element may itself contain newlines, see below), and the method
  is proved against the specification functions `Product` (the pairs in
  loop order) and `Output` (the lines for a sequence of attempts). An
  `oracle` of type `Credential -> Server` says how the server behaves for
  each pair.
- The empty-list guards of `main`, as `Sweep.RunSweep`.

Python's `str.strip()` (with its `isspace` character set) and `str.join` are
modelled in module `PyStr` (`pystr.dfy`).

Two behaviours of the code are modelled as written:

- When `connect` returns false, the error text is
  `"Failed to establish SMB session"`.
- An exception whose text strips to the empty string yields the error `""`.
  That error is falsy, so the pair is reported as `INVALID`, not as `ERROR`
  (`Sweep.BlankErrorIsInvalid`).

## Model

| member | source | states |
|---|---|---|
| `SmbAuth.Handle` | smb_brute_auth.py:39-43 | The `except` clause; its contract is held by `SmbAuth.RaisedResult` and `Sweep.BlankErrorIsInvalid` |
| `SmbAuth.TryBlock` | smb_brute_auth.py:32-43 | The `try` block and the calls it makes; its contract is held by `SmbAuth.ResultCases` and `SmbAuth.SessionReleased` |
| `SmbAuth.AuthenticateSmb` | smb_brute_auth.py:12-45 | `authenticate_smb` with `close()` in `finally`; its contract is held by `SmbAuth.ResultCases`, `SmbAuth.SessionReleased`, `SmbAuth.ConnectFalseResult`, `SmbAuth.ListingResult` and `SmbAuth.RaisedResult` |
| `SmbAuth.SentinelStripped` | smb_brute_auth.py:9 | The sentinel has no surrounding whitespace, so an exception raised with exactly that text compares equal to it after stripping |
| `SmbAuth.ConnectFalseResult` | smb_brute_auth.py:33-35 | When `connect` returns false the result is `(False, [], "Failed to establish SMB session")`; the calls are exactly connect then close; the result does not depend on what `listShares` would have done |
| `SmbAuth.ListingResult` | smb_brute_auth.py:37-38 | A successful listing gives success, no error, and the share names in the order returned, duplicates kept, same length |
| `SmbAuth.RaisedResult` | smb_brute_auth.py:39-43 | An exception from `connect` or `listShares` yields `(False, [], None)` when its stripped text is the sentinel, and `(False, [], stripped text)` otherwise |
| `SmbAuth.ResultCases` | smb_brute_auth.py:32-43 | Every collaborator behaviour falls in exactly one of the three outcomes (connect false, exception, listing); success iff the listing succeeded; a failure carries no shares; a success carries no error |
| `SmbAuth.SessionReleased` | smb_brute_auth.py:32-45 | On every path the session is connected first and closed last, each exactly once, and `listShares` is called exactly when `connect` returned true |
| `PyStr.Strip` | smb_brute_auth.py:40 | `str.strip()` over the `isspace` set; its contract is held by `PyStr.StripShape`, `PyStr.StripUnique` and `PyStr.StripIdempotent` |
| `PyStr.StripShape` | smb_brute_auth.py:40 | `strip()` never lengthens a string; its result neither starts nor ends with whitespace; it is empty exactly when the input is all whitespace |
| `PyStr.StripUnique` | smb_brute_auth.py:40 | If a string is whitespace, then a stripped middle, then whitespace, `strip()` returns that middle |
| `PyStr.StripIdempotent` | smb_brute_auth.py:50 | Stripping twice gives the same string as stripping once |
| `Wordlist.LoadWordlist` | smb_brute_auth.py:48-50 | The result is no longer than the input and each word in it is non-empty with no leading or trailing whitespace |
| `Wordlist.LoadWordlistMembers` | smb_brute_auth.py:50 | A word is loaded iff it is non-empty and is the stripped form of some line |
| `Wordlist.LoadWordlistAppend` | smb_brute_auth.py:50 | Loading a concatenation of lines gives the two loaded lists concatenated, so the input order is kept |
| `Wordlist.LoadWordlistEmpty` | smb_brute_auth.py:50 | The list loaded is empty iff every line is blank |
| `Wordlist.LoadWordlistClean` | smb_brute_auth.py:50 | Lines that are already non-empty and stripped are loaded unchanged |
| `Wordlist.LoadWordlistIdempotent` | smb_brute_auth.py:50 | Filtering a loaded list again gives the same list |
| `Sweep.Interpret` | smb_brute_auth.py:74-81 | The branch on the triple; its contract is held by `Sweep.InterpretCases` |
| `Sweep.Classify` | smb_brute_auth.py:65-81 | The verdict for one attempt; its contract is held by `Sweep.ClassifyCases` and `Sweep.BlankErrorIsInvalid` |
| `Sweep.InterpretCases` | smb_brute_auth.py:74-81 | A triple reads as valid iff it is successful, as an error iff it is not successful and its error is present and non-empty (the error carries that text), and as invalid otherwise |
| `Sweep.ClassifyCases` | smb_brute_auth.py:32-43 | The verdict for a server: valid iff the listing succeeded (with its names); invalid iff an exception was raised whose stripped text is the sentinel or empty; an error otherwise, carrying the establishment failure or the stripped text |
| `Sweep.BlankErrorIsInvalid` | smb_brute_auth.py:40-43 | An exception whose text is all whitespace gives the triple `(False, [], "")`, which is reported as invalid |
| `Sweep.Render` | smb_brute_auth.py:74-81 | One attempt makes one or two `print` calls; two iff it is valid with a non-empty share list |
| `Sweep.RenderHead` | smb_brute_auth.py:74-81 | The text of the first `print` call starts with `VALID: `, `INVALID: ` or `ERROR: ` exactly when the verdict is valid, invalid or an error |
| `PyStr.Join` | smb_brute_auth.py:77 | `", ".join(shares)`; its contract is held by `PyStr.JoinAppend` and, for the shares line, `Sweep.AdminReport` |
| `PyStr.JoinAppend` | smb_brute_auth.py:77 | Joining a concatenation puts exactly one separator between the joined halves |
| `Sweep.Row` | smb_brute_auth.py:64 | Defines the pairs the inner loop visits for one username; their order is proved by `Sweep.ProductAt` and `Sweep.BruteForce` |
| `Sweep.Product` | smb_brute_auth.py:63-64 | The pairs in loop order; its contract is held by `Sweep.ProductLength` and `Sweep.ProductAt` |
| `Sweep.ProductLength` | smb_brute_auth.py:63-64 | The sweep makes exactly \|usernames\| × \|passwords\| attempts |
| `Sweep.ProductAt` | smb_brute_auth.py:63-64 | Row-major order: attempt number i × \|passwords\| + j is the pair of username i and password j |
| `Sweep.Report` | smb_brute_auth.py:65-81 | Each attempt makes one or two `print` calls |
| `Sweep.Transcript` | smb_brute_auth.py:63-81 | The `print` calls of a sequence of attempts; its contract is held by `Sweep.TranscriptAppend` |
| `Sweep.Output` | smb_brute_auth.py:63-81 | The `print` calls of a sweep, in attempt order; its contract is held by `Sweep.OutputAppend`, `Sweep.OutputSnoc`, `Sweep.OutputLength` and `Sweep.BruteForce` |
| `Sweep.TranscriptAppend` | smb_brute_auth.py:63-81 | The `print` calls for a sequence of attempts are the lines of its parts, one after the other |
| `Sweep.OutputAppend` | smb_brute_auth.py:63-81 | The output of a concatenation of attempts is the two outputs concatenated, in attempt order |
| `Sweep.OutputSnoc` | smb_brute_auth.py:65-81 | One more attempt's `print` calls come after everything printed before |
| `Sweep.OutputLength` | smb_brute_auth.py:74-81 | A sweep makes between one and two `print` calls per attempt |
| `Sweep.SessionsReleased` | smb_brute_auth.py:44-45 | Across a whole sweep, as many sessions are closed as are connected: one per attempt |
| `Sweep.BruteForce` | smb_brute_auth.py:53-81 | The attempts are exactly the pairs in row-major order, and standard output is the `print` calls of each attempt, in attempt order |
| `Sweep.RunSweep` | smb_brute_auth.py:101-119 | No username loaded: error naming the usernames file and no attempt; otherwise no password loaded: error naming the passwords file; otherwise a sweep over the loaded lists with at least one attempt |
| `Sweep.AdminGuestAttempts` | smb_brute_auth.py:63-64 | Two usernames and one password are tried as admin/1234 then guest/1234 |
| `Sweep.AdminReport` | smb_brute_auth.py:74-77 | A valid login whose server lists C$ and Users prints `VALID: admin:1234` and `  Shares: C$, Users` |
| `Sweep.GuestReport` | smb_brute_auth.py:39-81 | A login rejected with the sentinel text (up to surrounding whitespace) prints `INVALID: guest:1234` |
| `Sweep.OutputPair` | smb_brute_auth.py:63-81 | Two attempts print the first one's lines, then the second one's |
| `Sweep.AdminGuestScenario` | smb_brute_auth.py:53-81 | A sweep of admin and guest with password 1234 against a server that accepts only admin prints exactly the valid line, the shares line and the invalid line |

## Left out

- The pysmb `SMBConnection` object: its construction, and the network I/O
  of `connect`, `listShares` and `close`. These are replaced by the `Server`
  value. The server address, domain, port and timeout only reach the
  library, so they are absorbed into the oracle a sweep is given.
- `time.sleep(delay)` after each attempt is not modelled. This covers the
  pause and the float `delay`, and also the `ValueError` that a negative
  delay raises after the first attempt.
- Opening the word list files, UTF-8 decoding and splitting into lines.
  `load_wordlist` is modelled over the lines already read.
- `parse_args` and argparse. `RunSweep` takes the two file names as they
  are printed in its error messages, without `Path` normalisation.
- Python's `str(exc)` and the exception machinery. An exception is its
  message text. Exceptions that are not subclasses of `Exception` are not
  modelled; the `except` clause does not catch them.
- An exception raised by `close()` itself, or while iterating the share list.
- The server is a function of the credential alone (`oracle: Credential ->
  Server`): the model assumes it answers the same credential the same way on
  every attempt. Word lists may contain duplicates, so a pair can be tried
  twice, and a real server may then answer differently (lockout, time-out,
  reset connection). The model does not capture that.
- Report lines as physical lines: `stdout` holds one element per `print`
  call. An exception text is stripped only at its ends, so an `ERROR:` element
  can contain newlines and print as several physical lines.
- `Sweep.RunSweep`: the guards raise `ValueError`. The model returns a
  `ConfigError` carrying the same message instead.
