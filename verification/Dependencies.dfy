/**
 How calls to shared dependencies end, as their caller sees it and as the dependency does.

 The two can differ: a call may take effect and still raise, when only its
 confirmation is lost.
 */
module Dependencies {

  /** A write: what was reported, and how many copies landed. A confirmed write has landed at least
      once; an unconfirmed one may have landed too, and retries may land further copies. */
  datatype Report = Confirmed(more: nat) | Unconfirmed(copies: nat)
  {
    function Landings(): nat {
      if Confirmed? then more + 1 else copies
    }
  }

  function Landed<T>(x: T, r: Report): (xs: seq<T>)
    ensures |xs| == r.Landings() && forall i :: 0 <= i < |xs| ==> xs[i] == x
  {
    seq(r.Landings(), _ => x)
  }

  lemma LandedHas<T>(x: T, r: Report)
    ensures x in Landed(x, r) <==> r.Landings() > 0
  {
    if r.Landings() > 0 {
      assert Landed(x, r)[0] == x;
    }
  }

  lemma LandedCount<T>(x: T, r: Report, y: T)
    ensures multiset(Landed(x, r))[y] == if x == y then r.Landings() else 0
  {
    CopiesCount(Landed(x, r), x, y);
  }

  lemma {:induction false} CopiesCount<T>(xs: seq<T>, x: T, y: T)
    requires forall i :: 0 <= i < |xs| ==> xs[i] == x
    ensures multiset(xs)[y] == if x == y then |xs| else 0
  {
    if xs == [] {
    } else {
      CopiesCount(xs[1..], x, y);
      assert xs == [xs[0]] + xs[1..];
    }
  }

  /** A claim: the store answers, or the claim takes effect and the answer is lost, or nothing reaches the store. */
  datatype Claiming = Answered | AnswerLost | Unreachable
}
