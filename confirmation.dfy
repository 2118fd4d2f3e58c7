/** Offering candidate blocks to the user one at a time. The user is an
    oracle: `user(k)` is what the k-th confirmation prompt of the session
    does. A rejection moves on to the next candidate, an acceptance stops the
    scan with that block, and a prompt that throws ends the scan with no
    block (the scan's error handler returns false). */
module Confirmation {
  import opened Seats
  import opened BlockFinder

  /** The outcome of one `window.confirm` call: OK, Cancel, or an exception. */
  datatype Reply = Accept | Reject | Throw

  datatype Decision = Accepted(choice: Candidate) | Exhausted | Aborted

  /** How many prompts were shown, and how the scan ended. */
  datatype Presentation = Presentation(shown: nat, decision: Decision)

  /** A confirmation prompt: the element handles of the highlighted block and
      the section named in the message. */
  datatype Prompt = Prompt(seats: seq<nat>, section: string)

  /** Offers `offers` in order, the first one as prompt number `p`. */
  function Present(offers: seq<Candidate>, user: nat -> Reply, p: nat): (r: Presentation)
    ensures r.shown <= |offers|
    ensures r.decision.Accepted? ==> 0 < r.shown && r.decision.choice == offers[r.shown - 1]
    ensures r.decision.Exhausted? ==> r.shown == |offers|
  {
    if |offers| == 0 then Presentation(0, Exhausted)
    else
      match user(p)
      case Accept => Presentation(1, Accepted(offers[0]))
      case Throw => Presentation(1, Aborted)
      case Reject =>
        var rest := Present(offers[1..], user, p + 1);
        Presentation(rest.shown + 1, rest.decision)
  }

  /** The scan stops at the first prompt that is not rejected, number
      `stop`: it shows the candidates up to and including that one, accepts
      exactly that block when the reply is OK, and ends empty-handed when the
      prompt threw or every candidate was rejected. */
  lemma {:induction false} PresentStopsAtFirstAnswer(offers: seq<Candidate>, user: nat -> Reply, p: nat, stop: nat)
    requires p <= stop <= p + |offers|
    requires forall q :: p <= q < stop ==> user(q) == Reject
    requires stop < p + |offers| ==> user(stop) != Reject
    ensures Present(offers, user, p).shown == if stop < p + |offers| then stop - p + 1 else |offers|
    ensures Present(offers, user, p).decision ==
      if stop == p + |offers| then Exhausted
      else if user(stop) == Accept then Accepted(offers[stop - p])
      else Aborted
    decreases stop - p
  {
    if stop > p {
      PresentStopsAtFirstAnswer(offers[1..], user, p + 1, stop);
    }
  }

  /** Read the other way round: among the prompts a scan shows, an OK can
      only be the answer to the last one, and then it accepted that block. */
  lemma {:induction false} PresentAnswers(offers: seq<Candidate>, user: nat -> Reply, p: nat)
    ensures var pres := Present(offers, user, p);
      forall q :: p <= q < p + pres.shown && user(q) == Accept ==> pres.decision.Accepted? && q == p + pres.shown - 1
    ensures var pres := Present(offers, user, p);
      pres.decision.Accepted? ==> user(p + pres.shown - 1) == Accept
  {
    if |offers| > 0 && user(p) == Reject {
      PresentAnswers(offers[1..], user, p + 1);
    }
  }

  /** The prompts shown for a list of candidates, in order. */
  function PromptsFor(cs: seq<Candidate>, section: string): (r: seq<Prompt>)
    ensures |r| == |cs|
  {
    if |cs| == 0 then []
    else PromptsFor(cs[..|cs| - 1], section) + [Prompt(Ids(cs[|cs| - 1].block), section)]
  }

  /** One more candidate adds its prompt at the end (of any log the prompts
      are appended to). */
  lemma PromptsForSnoc(log: seq<Prompt>, cs: seq<Candidate>, c: Candidate, section: string)
    ensures log + PromptsFor(cs + [c], section) == log + PromptsFor(cs, section) + [Prompt(Ids(c.block), section)]
  {
    assert (cs + [c])[..|cs|] == cs;
  }

  /** One more candidate `c`, offered right after the rejected `done` as
      prompt number `stop`: when the user answers OK or the prompt throws,
      the scan of `offers` decides on it, and the log holds the prompts of
      what the scan showed; on Cancel, `done + [c]` is a longer rejected run
      whose prompts the log holds. */
  lemma OfferAnswered(offers: seq<Candidate>, done: seq<Candidate>, c: Candidate, user: nat -> Reply,
                      p: nat, stop: nat, answer: Reply, log: seq<Prompt>, section: string)
    requires |done| < |offers| && offers[..|done| + 1] == done + [c]
    requires stop == p + |done| && answer == user(stop)
    requires forall q :: p <= q < stop ==> user(q) == Reject
    ensures answer != Reject ==>
      var pres := Present(offers, user, p);
      && pres.decision == (if answer == Accept then Accepted(c) else Aborted)
      && log + PromptsFor(done, section) + [Prompt(Ids(c.block), section)] == log + PromptsFor(offers[..pres.shown], section)
    ensures answer == Reject ==> forall q :: p <= q < p + |done + [c]| ==> user(q) == Reject
    ensures log + PromptsFor(done + [c], section) == log + PromptsFor(done, section) + [Prompt(Ids(c.block), section)]
  {
    PresentAnswerAt(offers, user, p, |done|, stop);
    PromptsForSnoc(log, done, c, section);
    assert offers[|done|] == c by {
      assert offers[..|done| + 1][|done|] == c;
    }
  }

  /** When every candidate is rejected, the scan shows them all and ends
      with none. */
  lemma PresentAllRejected(offers: seq<Candidate>, user: nat -> Reply, p: nat, section: string)
    requires forall q :: p <= q < p + |offers| ==> user(q) == Reject
    ensures Present(offers, user, p) == Presentation(|offers|, Exhausted)
    ensures PromptsFor(offers[..Present(offers, user, p).shown], section) == PromptsFor(offers, section)
  {
    PresentStopsAtFirstAnswer(offers, user, p, p + |offers|);
    assert offers[..|offers|] == offers;
  }

  /** Prompts for two lists shown one after the other are the prompts of
      the concatenated list. */
  lemma {:induction false} PromptsForAppend(a: seq<Candidate>, b: seq<Candidate>, section: string)
    ensures PromptsFor(a + b, section) == PromptsFor(a, section) + PromptsFor(b, section)
    decreases |b|
  {
    if |b| > 0 {
      var init := b[..|b| - 1];
      assert (a + b)[..|a + b| - 1] == a + init;
      assert (a + b)[|a + b| - 1] == b[|b| - 1];
      PromptsForAppend(a, init, section);
    } else {
      assert a + b == a;
    }
  }

  /** With the first `k` candidates rejected, the answer to the next prompt,
      number `stop`, decides: OK accepts candidate `k`, a throw aborts, both
      after `k + 1` prompts; Cancel extends the rejected run by one. */
  lemma PresentAnswerAt(offers: seq<Candidate>, user: nat -> Reply, p: nat, k: nat, stop: nat)
    requires k < |offers| && stop == p + k
    requires forall q :: p <= q < stop ==> user(q) == Reject
    ensures user(stop) != Reject ==>
      Present(offers, user, p) == Presentation(k + 1, if user(stop) == Accept then Accepted(offers[k]) else Aborted)
    ensures user(stop) == Reject ==> forall q :: p <= q <= stop ==> user(q) == Reject
  {
    if user(stop) != Reject {
      PresentStopsAtFirstAnswer(offers, user, p, stop);
    }
  }

  /** `PromptsForAppend` after an earlier log. */
  lemma PromptsLog(log: seq<Prompt>, a: seq<Candidate>, b: seq<Candidate>, section: string)
    ensures log + PromptsFor(a, section) + PromptsFor(b, section) == log + PromptsFor(a + b, section)
  {
    PromptsForAppend(a, b, section);
    assert log + PromptsFor(a, section) + PromptsFor(b, section) == log + (PromptsFor(a, section) + PromptsFor(b, section));
  }

  /** A scan runs to the end of its list exactly when every prompt it shows
      is rejected. */
  lemma {:induction false} PresentExhausted(offers: seq<Candidate>, user: nat -> Reply, p: nat)
    ensures Present(offers, user, p).decision.Exhausted? <==> forall q :: p <= q < p + |offers| ==> user(q) == Reject
  {
    if |offers| > 0 {
      PresentExhausted(offers[1..], user, p + 1);
      if user(p) == Reject {
        forall q | p <= q < p + |offers| && (forall q' :: p + 1 <= q' < p + 1 + |offers[1..]| ==> user(q') == Reject)
          ensures user(q) == Reject
        {
          if q > p {
            assert p + 1 <= q < p + 1 + |offers[1..]|;
          }
        }
      }
    }
  }

  /** After blocks that were all rejected, the scan of a longer list goes on
      exactly as a scan of the rest would, started at the next prompt. */
  lemma {:induction false} PresentAfterRejected(done: seq<Candidate>, rest: seq<Candidate>, user: nat -> Reply, p: nat, q0: nat)
    requires q0 == p + |done|
    requires forall q :: p <= q < q0 ==> user(q) == Reject
    ensures var later := Present(rest, user, q0);
      Present(done + rest, user, p) == Presentation(|done| + later.shown, later.decision)
    decreases |done|
  {
    if |done| > 0 {
      assert (done + rest)[1..] == done[1..] + rest;
      assert user(p) == Reject;
      PresentAfterRejected(done[1..], rest, user, p + 1, q0);
    } else {
      assert done + rest == rest;
    }
  }

  /** Once a scan has decided within a list, anything after it is never
      offered. */
  lemma {:induction false} PresentDecidedPrefix(a: seq<Candidate>, b: seq<Candidate>, user: nat -> Reply, p: nat)
    requires !Present(a, user, p).decision.Exhausted?
    ensures Present(a + b, user, p) == Present(a, user, p)
    decreases |a|
  {
    assert |a| > 0;
    if user(p) == Reject {
      assert (a + b)[1..] == a[1..] + b;
      PresentDecidedPrefix(a[1..], b, user, p + 1);
    }
  }

  /** When the candidates `done` were all rejected and the scan of the
      following part `part`, from the next prompt, decides within it, the
      scan of the whole list decides the same way, having shown the prompts
      of `done` and those the scan of the part showed (after any earlier
      `log`). */
  lemma PresentStopsWithin(all: seq<Candidate>, done: seq<Candidate>, part: seq<Candidate>, user: nat -> Reply,
                           p: nat, pPart: nat, log: seq<Prompt>, section: string)
    requires done + part <= all
    requires pPart == p + |done|
    requires forall q :: p <= q < pPart ==> user(q) == Reject
    requires !Present(part, user, pPart).decision.Exhausted?
    ensures var pres, whole := Present(part, user, pPart), Present(all, user, p);
      && whole.decision == pres.decision
      && log + PromptsFor(done, section) + PromptsFor(part[..pres.shown], section) == log + PromptsFor(all[..whole.shown], section)
  {
    var pres, whole := Present(part, user, pPart), Present(all, user, p);
    DecidedWithin(all, done, part, user, p, pPart);
    assert whole.shown == |done| + pres.shown;
    assert all[..whole.shown] == done + part[..pres.shown];
    PromptsLog(log, done, part[..pres.shown], section);
  }

  lemma DecidedWithin(all: seq<Candidate>, done: seq<Candidate>, part: seq<Candidate>, user: nat -> Reply, p: nat, pPart: nat)
    requires done + part <= all
    requires pPart == p + |done|
    requires forall q :: p <= q < pPart ==> user(q) == Reject
    requires !Present(part, user, pPart).decision.Exhausted?
    ensures var pres := Present(part, user, pPart);
      && Present(all, user, p) == Presentation(|done| + pres.shown, pres.decision)
      && all[..|done| + pres.shown] == done + part[..pres.shown]
  {
    var later := all[|done| + |part|..];
    assert all == done + (part + later);
    PresentAfterRejected(done, part + later, user, p, pPart);
    PresentDecidedPrefix(part, later, user, pPart);
  }

  /** When the candidates `done` were all rejected and the scan of the
      following part `part` rejects all of it too, all of `done + part` was
      rejected and the prompts shown are those of `done + part`. */
  lemma PresentRejectsPart(done: seq<Candidate>, part: seq<Candidate>, user: nat -> Reply,
                           p: nat, pPart: nat, log: seq<Prompt>, section: string)
    requires pPart == p + |done|
    requires forall q :: p <= q < pPart ==> user(q) == Reject
    requires Present(part, user, pPart).decision.Exhausted?
    ensures forall q :: p <= q < p + |done + part| ==> user(q) == Reject
    ensures log + PromptsFor(done, section) + PromptsFor(part[..Present(part, user, pPart).shown], section)
      == log + PromptsFor(done + part, section)
  {
    PresentExhausted(part, user, pPart);
    assert part[..|part|] == part;
    PromptsForAppend(done, part, section);
  }
}
