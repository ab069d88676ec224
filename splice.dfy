/**
  The generic splice loop `replace_all`: given the matches of a pattern in a
  haystack (sorted, non-overlapping) and a fallible replacement, build the
  text of the unmatched segments and the replacements, in match order; the
  first failing replacement aborts with its error.
*/
module Splice {
  import opened Wrappers

  /** A match `haystack[start..end]`. */
  datatype Span = Span(start: nat, end: nat)

  /** Spans lie in `h` at or after `last`, in increasing order, without overlap. */
  predicate OrderedFrom(h: string, spans: seq<Span>, last: nat) {
    && (forall k :: 0 <= k < |spans| ==> spans[k].start <= spans[k].end <= |h|)
    && (|spans| > 0 ==> last <= spans[0].start)
    && (forall k :: 0 <= k < |spans| - 1 ==> spans[k].end <= spans[k + 1].start)
  }

  function Matched(h: string, sp: Span): string
    requires sp.start <= sp.end <= |h|
  {
    h[sp.start..sp.end]
  }

  /** The text `replace_all` produces from `h[last..]` and the remaining spans. */
  function SpliceFrom<E>(h: string, spans: seq<Span>, rep: string -> Result<string, E>, last: nat)
    : Result<string, E>
    requires last <= |h| && OrderedFrom(h, spans, last)
    decreases |spans|
  {
    if |spans| == 0 then Success(h[last..])
    else
      var sp := spans[0];
      match rep(Matched(h, sp))
      case Failure(e) => Failure(e)
      case Success(x) =>
        match SpliceFrom(h, spans[1..], rep, sp.end)
        case Failure(e) => Failure(e)
        case Success(rest) => Success(h[last..sp.start] + x + rest)
  }

  function Splice<E>(h: string, spans: seq<Span>, rep: string -> Result<string, E>): Result<string, E>
    requires OrderedFrom(h, spans, 0)
  {
    SpliceFrom(h, spans, rep, 0)
  }

  function Prepend<E>(p: string, r: Result<string, E>): Result<string, E> {
    match r
    case Success(v) => Success(p + v)
    case Failure(e) => Failure(e)
  }

  /** `CraftDocs::replace_all`, the loop with its `last_match` cursor. */
  method ReplaceAll<E>(h: string, spans: seq<Span>, rep: string -> Result<string, E>)
    returns (r: Result<string, E>)
    requires OrderedFrom(h, spans, 0)
    ensures r == Splice(h, spans, rep)
  {
    var out := "";
    var last: nat := 0;
    var i := 0;
    PrependEmpty(Splice(h, spans, rep));
    assert spans[0..] == spans;
    while i < |spans|
      invariant 0 <= i <= |spans|
      invariant last <= |h| && OrderedFrom(h, spans[i..], last)
      invariant Splice(h, spans, rep) == Prepend(out, SpliceFrom(h, spans[i..], rep, last))
    {
      var sp := spans[i];
      var before := h[last..sp.start];
      var x := rep(h[sp.start..sp.end]);
      SpliceStep(h, spans[i..], rep, last);
      assert spans[i..][1..] == spans[i + 1..];
      if x.Failure? {
        return Failure(x.error);
      }
      PrependTwice(out, before + x.value, SpliceFrom(h, spans[i + 1..], rep, sp.end));
      out := out + (before + x.value);
      last := sp.end;
      i := i + 1;
    }
    out := out + h[last..];
    return Success(out);
  }

  /** One turn of the loop: the first span either fails or contributes its gap and replacement. */
  lemma SpliceStep<E>(h: string, spans: seq<Span>, rep: string -> Result<string, E>, last: nat)
    requires last <= |h| && OrderedFrom(h, spans, last) && |spans| > 0
    ensures spans[0].end <= |h| && OrderedFrom(h, spans[1..], spans[0].end)
    ensures rep(Matched(h, spans[0])).Failure? ==>
      SpliceFrom(h, spans, rep, last) == Failure(rep(Matched(h, spans[0])).error)
    ensures rep(Matched(h, spans[0])).Success? ==>
      SpliceFrom(h, spans, rep, last) ==
        Prepend(h[last..spans[0].start] + rep(Matched(h, spans[0])).value,
                SpliceFrom(h, spans[1..], rep, spans[0].end))
  {
    assert forall k :: 0 <= k < |spans| - 1 ==> spans[1..][k] == spans[k + 1];
  }

  lemma PrependEmpty<E>(r: Result<string, E>)
    ensures Prepend("", r) == r
  {
    if r.Success? {
      assert "" + r.value == r.value;
    }
  }

  lemma PrependTwice<E>(a: string, b: string, r: Result<string, E>)
    ensures Prepend(a, Prepend(b, r)) == Prepend(a + b, r)
  {
    if r.Success? {
      assert a + (b + r.value) == (a + b) + r.value;
    }
  }

  // ---------------------------------------------------------------------------
  // Properties of the splice

  /** With no matches the haystack is returned unchanged. */
  lemma SpliceNoMatches<E>(h: string, rep: string -> Result<string, E>)
    ensures Splice(h, [], rep) == Success(h)
  {
  }

  /** A single match is replaced in place: the text before and after it is kept. */
  lemma SpliceSingle<E>(h: string, sp: Span, rep: string -> Result<string, E>)
    requires sp.start <= sp.end <= |h|
    ensures rep(Matched(h, sp)).Success? ==>
      Splice(h, [sp], rep) == Success(h[..sp.start] + rep(Matched(h, sp)).value + h[sp.end..])
    ensures rep(Matched(h, sp)).Failure? ==>
      Splice(h, [sp], rep) == Failure(rep(Matched(h, sp)).error)
  {
    var one: seq<Span> := [sp];
    assert |one[1..]| == 0;
    assert SpliceFrom(h, one[1..], rep, sp.end) == Success(h[sp.end..]);
    assert h[0..sp.start] == h[..sp.start];
  }

  /** When every replacement gives back its match, the text outside and inside the matches is preserved. */
  lemma {:induction false} SpliceIdentity<E>(h: string, spans: seq<Span>, rep: string -> Result<string, E>,
                                             last: nat)
    requires last <= |h| && OrderedFrom(h, spans, last)
    requires forall k :: 0 <= k < |spans| ==> rep(Matched(h, spans[k])) == Success(Matched(h, spans[k]))
    ensures SpliceFrom(h, spans, rep, last) == Success(h[last..])
    decreases |spans|
  {
    if |spans| > 0 {
      var sp := spans[0];
      assert rep(Matched(h, sp)) == Success(Matched(h, sp));
      assert forall k :: 0 <= k < |spans| - 1 ==> spans[1..][k] == spans[k + 1];
      SpliceIdentity(h, spans[1..], rep, sp.end);
      assert h[last..sp.start] + h[sp.start..sp.end] + h[sp.end..] == h[last..];
    }
  }

  /** The splice fails exactly when some replacement fails, and then with the error of the first one. */
  lemma {:induction false} SpliceFirstError<E>(h: string, spans: seq<Span>, rep: string -> Result<string, E>,
                                               last: nat)
    requires last <= |h| && OrderedFrom(h, spans, last)
    ensures SpliceFrom(h, spans, rep, last).Failure? <==>
      exists k :: 0 <= k < |spans| && rep(Matched(h, spans[k])).Failure?
    ensures SpliceFrom(h, spans, rep, last).Failure? ==>
      exists k :: 0 <= k < |spans| && rep(Matched(h, spans[k])) == Failure(SpliceFrom(h, spans, rep, last).error)
        && forall m :: 0 <= m < k ==> rep(Matched(h, spans[m])).Success?
    decreases |spans|
  {
    if |spans| > 0 {
      var sp := spans[0];
      var tail := spans[1..];
      assert forall k :: 0 <= k < |tail| ==> tail[k] == spans[k + 1];
      SpliceFirstError(h, tail, rep, sp.end);
      if rep(Matched(h, sp)).Failure? {
        assert rep(Matched(h, spans[0])) == Failure(SpliceFrom(h, spans, rep, last).error);
      } else if SpliceFrom(h, tail, rep, sp.end).Failure? {
        var k :| 0 <= k < |tail| && rep(Matched(h, tail[k])) == Failure(SpliceFrom(h, tail, rep, sp.end).error)
          && forall m :: 0 <= m < k ==> rep(Matched(h, tail[m])).Success?;
        assert rep(Matched(h, spans[k + 1])) == Failure(SpliceFrom(h, spans, rep, last).error);
        forall m | 0 <= m < k + 1 ensures rep(Matched(h, spans[m])).Success? {
          if m > 0 { assert spans[m] == tail[m - 1]; }
        }
      } else {
        forall k | 0 <= k < |spans| ensures rep(Matched(h, spans[k])).Success? {
          if k > 0 { assert spans[k] == tail[k - 1]; }
        }
      }
    }
  }
}
