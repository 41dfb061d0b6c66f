/** First-in-first-out matching of openings with closings, as the SLA computation does it for one key: each closing
    serves the opening that has waited longest. The results say which opening that is, and how many are left waiting. */
module Fifo {
  /** Something starts waiting, or something arrives that serves the longest-waiting start, if there is one. */
  datatype Signal = Open(at: int) | Close(at: int)

  /** The positions still waiting, oldest first. */
  function Waiting(s: seq<Signal>): (w: seq<nat>)
    ensures forall i :: 0 <= i < |w| ==> w[i] < |s| && s[w[i]].Open?
  {
    if s == [] then []
    else
      var n := |s| - 1;
      var w := Waiting(s[..n]);
      if s[n].Open? then w + [n] else if w == [] then [] else w[1..]
  }

  /** A served wait: the position that opened it and the position that closed it. */
  datatype Match = Match(opening: nat, closing: nat)

  function Matches(s: seq<Signal>): seq<Match> {
    if s == [] then []
    else
      var n := |s| - 1;
      var m := Matches(s[..n]);
      if s[n].Close? && Waiting(s[..n]) != [] then m + [Match(Waiting(s[..n])[0], n)] else m
  }

  /** The positions of the openings. */
  function Openings(s: seq<Signal>): seq<nat> {
    if s == [] then []
    else
      var n := |s| - 1;
      if s[n].Open? then Openings(s[..n]) + [n] else Openings(s[..n])
  }

  /** Openings minus closings. */
  function Excess(s: seq<Signal>): int {
    if s == [] then 0 else Excess(s[..|s| - 1]) + if s[|s| - 1].Open? then 1 else -1
  }

  /** The queue length is the largest excess of openings over closings in any suffix. */
  lemma {:induction false} WaitingIsLargestExcess(s: seq<Signal>)
    ensures forall i :: 0 <= i <= |s| ==> Excess(s[i..]) <= |Waiting(s)|
    ensures exists i :: 0 <= i <= |s| && Excess(s[i..]) == |Waiting(s)|
  {
    if s == [] {
      assert Excess(s[0..]) == |Waiting(s)|;
    } else {
      var n := |s| - 1;
      var init := s[..n];
      WaitingIsLargestExcess(init);
      forall i | 0 <= i <= n
        ensures Excess(s[i..]) == Excess(init[i..]) + if s[n].Open? then 1 else -1
      {
        assert s[i..][..n - i] == init[i..];
      }
      assert Excess(s[n + 1..]) == 0;
      forall i | 0 <= i <= |s| ensures Excess(s[i..]) <= |Waiting(s)| {
        if i <= n { assert Excess(init[i..]) <= |Waiting(init)|; }
      }
      var best :| 0 <= best <= n && Excess(init[best..]) == |Waiting(init)|;
      if s[n].Open? || Waiting(init) != [] {
        assert Excess(s[best..]) == |Waiting(s)|;
      } else {
        assert Excess(s[|s|..]) == |Waiting(s)|;
      }
    }
  }

  /** The openings split into the served ones, in the order they were served, and the waiting ones: the k-th match
      serves the k-th opening. */
  lemma {:induction false} OpeningsServedInOrder(s: seq<Signal>)
    ensures |Openings(s)| == |Matches(s)| + |Waiting(s)|
    ensures forall k :: 0 <= k < |Matches(s)| ==> Matches(s)[k].opening == Openings(s)[k]
    ensures Waiting(s) == Openings(s)[|Matches(s)|..]
  {
    if s != [] {
      OpeningsServedInOrder(s[..|s| - 1]);
    }
  }

  lemma {:induction false} OpeningsAscend(s: seq<Signal>)
    ensures forall i :: 0 <= i < |Openings(s)| ==> Openings(s)[i] < |s| && s[Openings(s)[i]].Open?
    ensures forall i, j :: 0 <= i < j < |Openings(s)| ==> Openings(s)[i] < Openings(s)[j]
    ensures forall p :: 0 <= p < |s| && s[p].Open? ==> exists i :: 0 <= i < |Openings(s)| && Openings(s)[i] == p
  {
    if s != [] {
      var n := |s| - 1;
      OpeningsAscend(s[..n]);
      forall p | 0 <= p < |s| && s[p].Open? ensures exists i :: 0 <= i < |Openings(s)| && Openings(s)[i] == p {
        if p == n {
          assert Openings(s)[|Openings(s)| - 1] == p;
        } else {
          var i :| 0 <= i < |Openings(s[..n])| && Openings(s[..n])[i] == p;
          assert Openings(s)[i] == p;
        }
      }
    }
  }

  lemma {:induction false} ClosingsAscend(s: seq<Signal>)
    ensures forall k :: 0 <= k < |Matches(s)| ==>
              Matches(s)[k].opening < Matches(s)[k].closing < |s| && s[Matches(s)[k].opening].Open?
                  && s[Matches(s)[k].closing].Close?
    ensures forall k, l :: 0 <= k < l < |Matches(s)| ==> Matches(s)[k].closing < Matches(s)[l].closing
  {
    if s != [] {
      ClosingsAscend(s[..|s| - 1]);
    }
  }

  /** Matches never cross: an earlier closing serves an earlier opening. */
  lemma MatchesNeverCross(s: seq<Signal>, k: nat, l: nat)
    requires k < l < |Matches(s)|
    ensures Matches(s)[k].opening < Matches(s)[l].opening && Matches(s)[k].closing < Matches(s)[l].closing
  {
    OpeningsServedInOrder(s);
    OpeningsAscend(s);
    ClosingsAscend(s);
  }

  /** When time does not run backwards, no wait is negative. */
  lemma WaitsAreNotNegative(s: seq<Signal>, k: nat)
    requires forall i, j :: 0 <= i < j < |s| ==> s[i].at <= s[j].at
    requires k < |Matches(s)|
    ensures Matches(s)[k].opening < |s| && Matches(s)[k].closing < |s|
    ensures s[Matches(s)[k].closing].at - s[Matches(s)[k].opening].at >= 0
  {
    ClosingsAscend(s);
  }
}
