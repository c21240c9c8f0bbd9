/** Best-so-far selection as the bit-timing search does it, over the list of candidates it visits. */
module BestCandidate {
  import opened CInts

  const UINT_MAX: u32 := 0xFFFF_FFFF

  datatype Candidate = Candidate(bitrateError: u32, samplePointError: u32, tseg: u32, brp: u32)

  /** One pass of the loop: skipped for its prescaler, or visited.
      A visited bit time that cannot be split has the sample-point error `UINT_MAX`. */
  datatype Entry = Skipped | Visited(c: Candidate)

  /** The best candidate before any was accepted. */
  const NOTHING := Candidate(UINT_MAX, UINT_MAX, 0, 0)

  predicate Usable(e: Entry) {
    e.Visited? && e.c.samplePointError < UINT_MAX
  }

  /** Bit-rate error first, sample-point error second. */
  predicate Better(a: Candidate, b: Candidate) {
    a.bitrateError < b.bitrateError
    || (a.bitrateError == b.bitrateError && a.samplePointError < b.samplePointError)
  }

  /** One pass of the loop body. A better bit rate forgets the sample-point error first, even if the
      candidate is then not accepted. */
  function Consider(e: Entry, best: Candidate): Candidate {
    if e.Skipped? || e.c.bitrateError > best.bitrateError then best
    else
      var limit := if e.c.bitrateError < best.bitrateError then UINT_MAX else best.samplePointError;
      if e.c.samplePointError >= limit then best.(samplePointError := limit) else e.c
  }

  function Select(es: seq<Entry>, best: Candidate): Candidate {
    if es == [] then best else Select(es[1..], Consider(es[0], best))
  }

  lemma SelectNext(es: seq<Entry>, i: nat, best: Candidate)
    requires i < |es|
    ensures Select(es[i..], best) == Select(es[i + 1..], Consider(es[i], best))
  {
    assert es[i..][1..] == es[i + 1..];
  }

  /** Nothing replaces a candidate without error, so the search may stop there. */
  lemma {:induction false} PerfectIsFinal(es: seq<Entry>, best: Candidate)
    requires best.bitrateError == 0 && best.samplePointError == 0
    ensures Select(es, best) == best
  {
    if es != [] {
      PerfectIsFinal(es[1..], best);
    }
  }

  /** `j` is the first of the usable entries that no other usable entry beats. */
  ghost predicate LeastAt(es: seq<Entry>, j: int) {
    && 0 <= j < |es| && Usable(es[j])
    && forall i | 0 <= i < |es| && Usable(es[i]) ::
         !Better(es[i].c, es[j].c) && (i < j ==> Better(es[j].c, es[i].c))
  }

  /** What makes the loop forget the sample-point error of a candidate with this bit-rate error. */
  predicate Forgets(e: Entry, bitrateError: u32) {
    e.Visited? && !Usable(e) && e.c.bitrateError < bitrateError
  }

  /** The loop forgot entry `i` before it came to entry `j`. */
  ghost predicate Separated(es: seq<Entry>, i: int, j: int, bitrateError: u32)
    requires 0 <= i && j <= |es|
  {
    exists f | i < f < j :: Forgets(es[f], bitrateError)
  }

  /** A usable entry with the least bit-rate error of all usable ones. */
  ghost predicate LeastRate(es: seq<Entry>, j: int) {
    && 0 <= j < |es| && Usable(es[j])
    && forall i | 0 <= i < |es| && Usable(es[i]) :: es[j].c.bitrateError <= es[i].c.bitrateError
  }

  /** `j` is least among the entries of its bit-rate error from which the loop did not forget its way to `j`, and
      none comes later that it forgot its way to. */
  ghost predicate Chosen(es: seq<Entry>, j: int) {
    && LeastRate(es, j)
    && forall i | 0 <= i < |es| && LeastRate(es, i) ::
         if i < j then es[j].c.samplePointError < es[i].c.samplePointError || Separated(es, i, j, es[j].c.bitrateError)
         else es[j].c.samplePointError <= es[i].c.samplePointError && !Separated(es, j, i, es[j].c.bitrateError)
  }

  /** `best` is entry `j`, but for its sample-point error if that was forgotten since. */
  ghost predicate Records(es: seq<Entry>, best: Candidate, j: int)
    requires 0 <= j < |es| && es[j].Visited?
  {
    && best.(samplePointError := es[j].c.samplePointError) == es[j].c
    && best.samplePointError
       == if Separated(es, j, |es|, es[j].c.bitrateError) then UINT_MAX else es[j].c.samplePointError
  }

  ghost predicate FoundIn(es: seq<Entry>, best: Candidate) {
    if forall i | 0 <= i < |es| :: !Usable(es[i]) then best == NOTHING
    else exists j :: Chosen(es, j) && Records(es, best, j)
  }

  ghost predicate Finite(es: seq<Entry>) {
    forall i | 0 <= i < |es| && es[i].Visited? :: es[i].c.bitrateError < UINT_MAX
  }

  lemma SeparatedBefore(es: seq<Entry>, e: Entry, i: int, j: int, rate: u32)
    requires 0 <= i && j <= |es|
    ensures Separated(es + [e], i, j, rate) <==> Separated(es, i, j, rate)
  {
    forall f | i < f < j
      ensures (es + [e])[f] == es[f]
    {
    }
  }

  lemma SeparatedNow(es: seq<Entry>, e: Entry, i: int, rate: u32)
    requires 0 <= i < |es|
    ensures Separated(es + [e], i, |es| + 1, rate) <==> Separated(es, i, |es|, rate) || Forgets(e, rate)
  {
    var es' := es + [e];
    assert es'[|es|] == e;
    SeparatedBefore(es, e, i, |es|, rate);
    if Separated(es', i, |es| + 1, rate) {
      var f :| i < f < |es| + 1 && Forgets(es'[f], rate);
      assert f < |es| ==> Forgets(es[f], rate);
    }
  }

  lemma LeastRateGrows(es: seq<Entry>, e: Entry, j: int)
    requires LeastRate(es, j) && (Usable(e) ==> es[j].c.bitrateError <= e.c.bitrateError)
    ensures LeastRate(es + [e], j)
    ensures forall i | 0 <= i < |es| :: LeastRate(es + [e], i) <==> LeastRate(es, i)
    ensures LeastRate(es + [e], |es|) <==> Usable(e) && e.c.bitrateError == es[j].c.bitrateError
  {
    var es' := es + [e];
    forall i | 0 <= i < |es'| && Usable(es'[i])
      ensures es[j].c.bitrateError <= es'[i].c.bitrateError
    {
      assert i < |es| ==> Usable(es[i]);
    }
    forall i | 0 <= i < |es|
      ensures LeastRate(es', i) <==> LeastRate(es, i)
    {
      if LeastRate(es', i) {
        assert Usable(es'[j]);
        assert es[i].c.bitrateError <= es[j].c.bitrateError;
      }
    }
  }

  /** An entry that is not accepted leaves the choice as it is. */
  lemma NotAccepted(es: seq<Entry>, e: Entry, best: Candidate, j: int)
    requires Chosen(es, j) && Records(es, best, j) && Consider(e, best) != NOTHING
    requires Usable(e) ==>
      e.c.bitrateError > best.bitrateError
      || (e.c.bitrateError == best.bitrateError && e.c.samplePointError >= best.samplePointError)
    ensures Chosen(es + [e], j) && Records(es + [e], Consider(e, best), j)
  {
    var es', rate := es + [e], es[j].c.bitrateError;
    LeastRateGrows(es, e, j);
    SeparatedNow(es, e, j, rate);
    SeparatedBefore(es, e, j, |es|, rate);
    forall i | 0 <= i < |es'| && LeastRate(es', i)
      ensures if i < j then es'[j].c.samplePointError < es'[i].c.samplePointError || Separated(es', i, j, rate)
        else es'[j].c.samplePointError <= es'[i].c.samplePointError && !Separated(es', j, i, rate)
    {
      if i < j {
        SeparatedBefore(es, e, i, j, rate);
      } else if i < |es| {
        SeparatedBefore(es, e, j, i, rate);
      }
    }
  }

  /** An accepted entry is the new choice. */
  lemma Accepted(es: seq<Entry>, e: Entry, best: Candidate, j: int)
    requires Chosen(es, j) && Records(es, best, j) && Usable(e)
    requires e.c.bitrateError < best.bitrateError
      || (e.c.bitrateError == best.bitrateError && e.c.samplePointError < best.samplePointError)
    ensures Chosen(es + [e], |es|) && Records(es + [e], e.c, |es|)
  {
    var es', rate := es + [e], e.c.bitrateError;
    assert es'[|es|] == e;
    forall i | 0 <= i < |es'| && Usable(es'[i])
      ensures rate <= es'[i].c.bitrateError
    {
      assert i < |es| ==> Usable(es[i]);
    }
    forall i | 0 <= i < |es| && LeastRate(es', i)
      ensures e.c.samplePointError < es'[i].c.samplePointError || Separated(es', i, |es|, rate)
    {
      assert Usable(es'[j]) && Usable(es'[|es|]);
      LeastRateGrows(es, e, j);
      SeparatedBefore(es, e, i, |es|, rate);
      ForgottenOrWorse(es, j, i, best, e.c.samplePointError);
    }
  }

  lemma ForgottenOrWorse(es: seq<Entry>, j: int, i: int, best: Candidate, samplePointError: u32)
    requires Chosen(es, j) && Records(es, best, j) && LeastRate(es, i)
    requires samplePointError < best.samplePointError
    ensures samplePointError < es[i].c.samplePointError || Separated(es, i, |es|, es[j].c.bitrateError)
  {
    var rate := es[j].c.bitrateError;
    if Separated(es, j, |es|, rate) {
      var f :| j < f < |es| && Forgets(es[f], rate);
      assert i != f;
    } else if i < j && Separated(es, i, j, rate) {
      var f :| i < f < j && Forgets(es[f], rate);
    }
  }

  lemma ConsiderKeepsFound(es: seq<Entry>, e: Entry, best: Candidate)
    requires Finite(es + [e]) && FoundIn(es, best)
    ensures FoundIn(es + [e], Consider(e, best))
  {
    var es' := es + [e];
    assert es'[|es|] == e;
    if exists i | 0 <= i < |es| :: Usable(es[i]) {
      var i :| 0 <= i < |es| && Usable(es[i]);
      assert Usable(es'[i]);
      var j :| Chosen(es, j) && Records(es, best, j);
      if Usable(e) && (e.c.bitrateError < best.bitrateError
          || (e.c.bitrateError == best.bitrateError && e.c.samplePointError < best.samplePointError)) {
        Accepted(es, e, best, j);
      } else {
        NotAccepted(es, e, best, j);
      }
    } else if Usable(e) {
      assert Chosen(es', |es|) && Records(es', Consider(e, best), |es|);
    }
  }

  lemma {:induction false} SelectKeepsFound(done: seq<Entry>, rest: seq<Entry>, best: Candidate)
    requires Finite(done + rest) && FoundIn(done, best)
    ensures FoundIn(done + rest, Select(rest, best))
    decreases |rest|
  {
    if rest == [] {
      assert done + rest == done;
    } else {
      var next := done + [rest[0]];
      assert done + rest == next + rest[1..];
      assert forall i | 0 <= i < |next| :: next[i] == (done + rest)[i];
      ConsiderKeepsFound(done, rest[0], best);
      SelectKeepsFound(next, rest[1..], Consider(rest[0], best));
    }
  }

  /** The search goes wrong at `f`: it forgets entry `b` there although `b` has the least bit-rate error, and of the
      entries with that error that follow, none is better. */
  ghost predicate LosesAt(es: seq<Entry>, b: int, f: int) {
    && 0 <= b < f < |es|
    && LeastRate(es, b) && Forgets(es[f], es[b].c.bitrateError)
    && (exists a | f < a < |es| :: LeastRate(es, a))
    && forall a | f < a < |es| && LeastRate(es, a) :: es[b].c.samplePointError <= es[a].c.samplePointError
  }

  lemma ChosenWhenNothingIsLost(es: seq<Entry>, j: int)
    requires Chosen(es, j) && !LeastAt(es, j)
    ensures exists b, f :: LosesAt(es, b, f)
  {
    var i :| 0 <= i < |es| && Usable(es[i]) && (Better(es[i].c, es[j].c) || (i < j && !Better(es[j].c, es[i].c)));
    var rate := es[j].c.bitrateError;
    assert LeastRate(es, i);
    var f := LastForgotten(es, i, j, rate);
    forall a | f < a < |es| && LeastRate(es, a)
      ensures es[i].c.samplePointError <= es[a].c.samplePointError
    {
    }
    assert LosesAt(es, i, f);
  }

  lemma LastForgotten(es: seq<Entry>, i: int, j: int, rate: u32) returns (f: int)
    requires 0 <= i && j <= |es| && Separated(es, i, j, rate)
    ensures i < f < j && Forgets(es[f], rate) && forall g | f < g < j :: !Forgets(es[g], rate)
    decreases j
  {
    f := j - 1;
    if !Forgets(es[f], rate) {
      f := LastForgotten(es, i, j - 1, rate);
    }
  }

  lemma ChosenWhenLost(es: seq<Entry>, j: int, b: int, f: int)
    requires Chosen(es, j) && LosesAt(es, b, f)
    ensures !LeastAt(es, j) && f < j
  {
    var a :| f < a < |es| && LeastRate(es, a);
    var rate := es[j].c.bitrateError;
    assert es[b].c.bitrateError == rate;
    assert Forgets(es[f], rate);
    assert f < j;
  }

  /** Main result on the selection, for any entries: one of least bit-rate error is chosen; it is the first of those
      that no usable entry beats if and only if the search nowhere forgets an entry as good as all that follow. */
  lemma SelectFindsLeast(es: seq<Entry>) returns (j: int)
    requires Finite(es)
    ensures (forall i | 0 <= i < |es| :: !Usable(es[i])) <==> Select(es, NOTHING) == NOTHING
    ensures Select(es, NOTHING) != NOTHING ==>
      && LeastRate(es, j)
      && Select(es, NOTHING).(samplePointError := es[j].c.samplePointError) == es[j].c
      && (LeastAt(es, j) <==> !exists b, f :: LosesAt(es, b, f))
      && forall b, f | LosesAt(es, b, f) :: f < j
  {
    assert [] + es == es;
    SelectKeepsFound([], es, NOTHING);
    j := 0;
    if exists i | 0 <= i < |es| :: Usable(es[i]) {
      j :| Chosen(es, j) && Records(es, Select(es, NOTHING), j);
      forall b, f | LosesAt(es, b, f)
        ensures f < j && !LeastAt(es, j)
      {
        ChosenWhenLost(es, j, b, f);
      }
      if !LeastAt(es, j) {
        ChosenWhenNothingIsLost(es, j);
      }
    }
  }

  /** Between two usable entries every visited one is usable. */
  ghost predicate Convex(es: seq<Entry>) {
    forall a, b, c | 0 <= a < b < c < |es| && Usable(es[a]) && es[b].Visited? && Usable(es[c]) :: Usable(es[b])
  }

  lemma ConvexLosesNothing(es: seq<Entry>)
    requires Convex(es)
    ensures !exists b, f :: LosesAt(es, b, f)
  {
  }

  /** Entries are convex when usability of a visited entry is membership in an interval. */
  lemma ConvexByBounds(es: seq<Entry>, n: int, lo: int, hi: int)
    requires forall i | 0 <= i < |es| && es[i].Visited? :: Usable(es[i]) <==> lo <= (n - i) / 2 <= hi
    ensures Convex(es)
  {
  }
}
