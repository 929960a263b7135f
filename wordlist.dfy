/**
 * `load_wordlist`, over the lines already read from the file:
 * `[line.strip() for line in handle if line.strip()]`.
 */
module Wordlist {
  import opened PyStr

  /** The stripped lines whose stripped form is non-empty, in input order. */
  function LoadWordlist(lines: seq<string>): (words: seq<string>)
    ensures |words| <= |lines|
    ensures forall k :: 0 <= k < |words| ==> words[k] != "" && IsStripped(words[k])
  {
    if lines == [] then []
    else
      var word := Strip(lines[0]);
      StripShape(lines[0]);
      (if word != "" then [word] else []) + LoadWordlist(lines[1..])
  }

  /** Filtering distributes over concatenation: the order of the input is kept. */
  lemma {:induction false} LoadWordlistAppend(a: seq<string>, b: seq<string>)
    ensures LoadWordlist(a + b) == LoadWordlist(a) + LoadWordlist(b)
  {
    if a != [] {
      assert (a + b)[1..] == a[1..] + b;
      LoadWordlistAppend(a[1..], b);
    } else {
      assert a + b == b;
    }
  }

  /** A word is loaded exactly when it is the non-empty stripped form of some line. */
  lemma {:induction false} LoadWordlistMembers(lines: seq<string>, w: string)
    ensures w in LoadWordlist(lines) <==> w != "" && exists line :: line in lines && Strip(line) == w
  {
    if lines != [] {
      LoadWordlistMembers(lines[1..], w);
      if w in LoadWordlist(lines[1..]) {
        var line :| line in lines[1..] && Strip(line) == w;
        assert line in lines;
      }
      if w != "" && exists line :: line in lines && Strip(line) == w {
        var line :| line in lines && Strip(line) == w;
        if line != lines[0] {
          assert line in lines[1..];
        }
      }
    }
  }

  /** A file is rejected as empty exactly when every one of its lines is blank. */
  lemma {:induction false} LoadWordlistEmpty(lines: seq<string>)
    ensures LoadWordlist(lines) == [] <==> forall k :: 0 <= k < |lines| ==> AllSpace(lines[k])
  {
    if lines != [] {
      LoadWordlistEmpty(lines[1..]);
      StripShape(lines[0]);
      assert forall k :: 1 <= k < |lines| ==> lines[k] == lines[1..][k - 1];
    }
  }

  /** Lines that are already non-empty and stripped are loaded unchanged. */
  lemma {:induction false} LoadWordlistClean(lines: seq<string>)
    requires forall k :: 0 <= k < |lines| ==> lines[k] != "" && IsStripped(lines[k])
    ensures LoadWordlist(lines) == lines
  {
    if lines != [] {
      assert lines[0][..0] == [] && lines[0][|lines[0]|..] == [] && lines[0][0..|lines[0]|] == lines[0];
      StripUnique(lines[0], 0, |lines[0]|);
      LoadWordlistClean(lines[1..]);
    }
  }

  /** Loading a loaded word list again changes nothing. */
  lemma LoadWordlistIdempotent(lines: seq<string>)
    ensures LoadWordlist(LoadWordlist(lines)) == LoadWordlist(lines)
  {
    LoadWordlistClean(LoadWordlist(lines));
  }
}
