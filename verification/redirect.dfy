/**
  The output-capturing guard `rocprofsys::redirect` (core/redirect.hpp):
  while it lives, a stream's output goes into a buffer; when it ends, the
  stream is restored and the captured text is compared with the expected
  text, ignoring newlines, tabs and spaces. A mismatch is reported and the
  captured text replayed according to the verbosity and the stream.

  Streams are not modelled as objects: the guard's decisions and the
  text it would write are results.
 */
module Redirect {

  import opened Common

  /** The characters the comparison ignores. */
  const Ignored: seq<char> := ['\n', '\t', ' ']

  /** The characters of `s` not listed in `chars`, in their original order. */
  function Keep(s: string, chars: seq<char>): (r: string)
    ensures |r| <= |s|
    decreases |s|
  {
    if |s| == 0 then ""
    else if s[0] in chars then Keep(s[1..], chars)
    else [s[0]] + Keep(s[1..], chars)
  }

  /** Nothing listed survives, and everything kept comes from `s`. */
  lemma {:induction false} KeepExcludes(s: string, chars: seq<char>)
    ensures forall c :: c in Keep(s, chars) ==> c in s && c !in chars
    decreases |s|
  {
    if |s| > 0 {
      KeepExcludes(s[1..], chars);
      assert forall c :: c in s[1..] ==> c in s;
    }
  }

  /** Keeping distributes over concatenation, so kept characters stay in order. */
  lemma {:induction false} KeepConcat(a: string, b: string, chars: seq<char>)
    ensures Keep(a + b, chars) == Keep(a, chars) + Keep(b, chars)
    decreases |a|
  {
    if |a| == 0 {
      assert a + b == b;
    } else {
      KeepConcat(a[1..], b, chars);
      assert (a + b)[0] == a[0];
      assert (a + b)[1..] == a[1..] + b;
      if a[0] !in chars {
        assert Keep(a + b, chars) == [a[0]] + (Keep(a[1..], chars) + Keep(b, chars));
      }
    }
  }

  /** Text free of the listed characters is kept whole, and keeping is idempotent. */
  lemma KeepIdempotent(s: string, chars: seq<char>)
    ensures (forall c :: c in s ==> c !in chars) ==> Keep(s, chars) == s
    ensures Keep(Keep(s, chars), chars) == Keep(s, chars)
  {
    if forall c :: c in s ==> c !in chars {
      KeepFree(s, chars);
    }
    KeepExcludes(s, chars);
    KeepFree(Keep(s, chars), chars);
  }

  /** A text none of whose characters is listed is its own `Keep`. */
  lemma {:induction false} KeepFree(s: string, chars: seq<char>)
    requires forall c :: c in s ==> c !in chars
    ensures Keep(s, chars) == s
    decreases |s|
  {
    if |s| > 0 {
      assert s[0] in s;
      assert forall c :: c in s[1..] ==> c in s;
      KeepFree(s[1..], chars);
      assert s == [s[0]] + s[1..];
    }
  }

  /** Removing the listed characters one after another is removing them all at once. */
  lemma {:induction false} KeepOneMore(s: string, chars: seq<char>, c: char)
    ensures Keep(Keep(s, chars), [c]) == Keep(s, chars + [c])
    decreases |s|
  {
    if |s| > 0 {
      KeepOneMore(s[1..], chars, c);
      if s[0] !in chars {
        KeepConcat([s[0]], Keep(s[1..], chars), [c]);
        assert Keep([s[0]], [c]) == if s[0] == c then "" else [s[0]];
      }
    }
  }

  /** Deleting one listed character at position `p` does not change what is kept. */
  lemma DeleteListed(s: string, p: nat, chars: seq<char>)
    requires p < |s| && s[p] in chars
    ensures Keep(s[..p] + s[p + 1..], chars) == Keep(s, chars)
  {
    assert s == s[..p] + ([s[p]] + s[p + 1..]);
    KeepConcat(s[..p], [s[p]] + s[p + 1..], chars);
    KeepConcat([s[p]], s[p + 1..], chars);
    KeepConcat(s[..p], s[p + 1..], chars);
    assert Keep([s[p]], chars) == "";
  }

  /**
    `redirect::replace` with its default empty replacement: for each listed
    character in turn, repeatedly find its first occurrence and delete it.
    The result is the text without the listed characters.
   */
  method Replace(v: string, chars: seq<char>) returns (r: string)
    ensures r == Keep(v, chars)
  {
    r := v;
    var k := 0;
    assert chars[..0] == [];
    KeepFree(v, []);
    while k < |chars|
      invariant 0 <= k <= |chars|
      invariant r == Keep(v, chars[..k])
    {
      var c := chars[k];
      var before := r;
      while true
        invariant Keep(r, [c]) == Keep(before, [c])
        decreases |r|
      {
        var pos := IndexOf(r, c);
        if pos.None? {
          break;
        }
        DeleteListed(r, pos.value, [c]);
        r := r[..pos.value] + r[pos.value + 1..];
      }
      assert forall x :: x in r ==> x !in [c];
      KeepFree(r, [c]);
      KeepOneMore(v, chars[..k], c);
      assert chars[..k] + [c] == chars[..k + 1];
      k := k + 1;
    }
    assert chars[..|chars|] == chars;
  }

  /** The streams the guard tells apart. */
  datatype Stream = StdErr | StdOut | OtherStream

  /** At construction the stream is redirected exactly when debugging is off. */
  function Redirects(debug: bool): (r: bool)
    ensures r <==> !debug
  {
    !debug
  }

  /** What the destructor does. */
  datatype Finish = Finish(
    restored: bool,                  // the original buffer is put back
    diagnostic: Option<string>,      // written to standard error
    replayed: Option<string>)        // written to the guarded stream

  /** Text without any of the ignored whitespace characters. */
  predicate Clean(s: string) {
    forall c :: c in s ==> c !in Ignored
  }

  /** Whether the captured text differs from the expected one, ignoring whitespace. */
  function Mismatch(captured: string, expected: string): (r: bool)
    ensures captured == expected ==> !r
    ensures Clean(captured) && Clean(expected) ==> (r <==> captured != expected)
  {
    KeepIdempotent(captured, Ignored);
    KeepIdempotent(expected, Ignored);
    Keep(captured, Ignored) != Keep(expected, Ignored)
  }

  const Tag: string := "[rocprofsys::redirect]"

  /** The report of a mismatch, showing both texts without whitespace. */
  function Diagnostic(expected: string, found: string): (r: string)
    ensures var e := 2 * |Tag| + 15;
            var f := e + |expected| + 2 * |Tag| + 13;
            |r| == f + |found| + 1 && r[..|Tag|] == Tag &&
            r[e..e + |expected|] == expected && r[f..f + |found|] == found
  {
    Tag + " Expected:\n" + Tag + "    " + expected + "\n" + Tag + " Found:\n" + Tag + "    " + found + "\n"
  }

  /**
    The destructor: nothing when the stream was never redirected;
    otherwise the buffer is restored, and on a mismatch the report goes to
    standard error when the verbosity is positive, and the captured text is
    replayed to the stream when the verbosity is not positive or the stream
    is neither standard error nor standard output.
   */
  function OnDestroy(redirected: bool, captured: string, expected: string, verbose: int, target: Stream): (r: Finish)
    ensures !redirected ==> r == Finish(false, None, None)
    ensures redirected ==> r.restored
    ensures r.diagnostic.Some? <==> redirected && Mismatch(captured, expected) && verbose > 0
    ensures r.replayed.Some? <==>
              redirected && Mismatch(captured, expected) && (verbose <= 0 || target == OtherStream)
    ensures r.replayed.Some? ==> r.replayed.value == captured
  {
    if !redirected then Finish(false, None, None)
    else
      var found := Keep(captured, Ignored);
      var want := Keep(expected, Ignored);
      if found == want then Finish(true, None, None)
      else
        Finish(true,
               if verbose > 0 then Some(Diagnostic(want, found)) else None,
               if verbose <= 0 || target == OtherStream then Some(captured) else None)
  }

  /**
    Output that matches the expected text up to inserted newlines, tabs
    and spaces is swallowed: nothing is written anywhere.
   */
  lemma WhitespaceIsIgnored(pre: string, ws: string, post: string, expected: string, verbose: int, target: Stream)
    requires forall c :: c in ws ==> c in Ignored
    requires Keep(pre + post, Ignored) == Keep(expected, Ignored)
    ensures OnDestroy(true, pre + ws + post, expected, verbose, target) == Finish(true, None, None)
  {
    KeepSkipsWhitespace(pre, ws, post);
    assert !Mismatch(pre + ws + post, expected);
  }

  /** Inserted whitespace disappears when the whitespace is stripped. */
  lemma KeepSkipsWhitespace(pre: string, ws: string, post: string)
    requires forall c :: c in ws ==> c in Ignored
    ensures Keep(pre + ws + post, Ignored) == Keep(pre + post, Ignored)
  {
    KeepConcat(pre + ws, post, Ignored);
    KeepConcat(pre, ws, Ignored);
    KeepConcat(pre, post, Ignored);
    KeepNone(ws, Ignored);
  }

  /** A text made only of listed characters keeps nothing. */
  lemma {:induction false} KeepNone(s: string, chars: seq<char>)
    requires forall c :: c in s ==> c in chars
    ensures Keep(s, chars) == ""
    decreases |s|
  {
    if |s| > 0 {
      assert s[0] in s;
      assert forall c :: c in s[1..] ==> c in s;
      KeepNone(s[1..], chars);
    }
  }
}
