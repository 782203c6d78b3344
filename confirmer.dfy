/** Stage 2: confirmation of each candidate by the classification service
    (`_node_confirm_with_llm`, core.py). */
module Confirmer {
  import opened GraphState

  /** What asking the service about one candidate comes to: the request, the JSON
      parse or the field lookup raised (`Failed`), or the parsed object's
      `is_chapter_title` field is truthy (`Truthy`) or falsy or absent (`Falsy`). */
  datatype Verdict = Failed | Truthy | Falsy

  /** The candidates the loop keeps, in candidate order. */
  function Confirmed(candidates: seq<Candidate>, verdict: Candidate -> Verdict): seq<Candidate>
  {
    if candidates == [] then []
    else
      var last := candidates[|candidates| - 1];
      Confirmed(candidates[..|candidates| - 1], verdict)
        + (if verdict(last) == Truthy then [last] else [])
  }

  /** Confirmation distributes over concatenation: each candidate is judged on its own. */
  lemma {:induction false} ConfirmedAppend(a: seq<Candidate>, b: seq<Candidate>, verdict: Candidate -> Verdict)
    ensures Confirmed(a + b, verdict) == Confirmed(a, verdict) + Confirmed(b, verdict)
    decreases |b|
  {
    if b != [] {
      var b' := b[..|b| - 1];
      assert (a + b)[..|a + b| - 1] == a + b';
      ConfirmedAppend(a, b', verdict);
    } else {
      assert a + b == a;
    }
  }

  /** A candidate is confirmed exactly when it is a candidate and its verdict is truthy. */
  lemma {:induction false} ConfirmedMembership(candidates: seq<Candidate>, verdict: Candidate -> Verdict, c: Candidate)
    ensures c in Confirmed(candidates, verdict) <==> c in candidates && verdict(c) == Truthy
  {
    if candidates != [] {
      var init := candidates[..|candidates| - 1];
      ConfirmedMembership(init, verdict, c);
      assert candidates == init + [candidates[|candidates| - 1]];
    }
  }

  /** The confirmed chapters are the candidates with some deleted, in the same order. */
  lemma {:induction false} ConfirmedIsSubsequence(candidates: seq<Candidate>, verdict: Candidate -> Verdict)
    ensures IsSubsequence(Confirmed(candidates, verdict), candidates)
    decreases |candidates|
  {
    if candidates != [] {
      var c := candidates[0];
      var rest := candidates[1..];
      assert candidates == [c] + rest;
      ConfirmedAppend([c], rest, verdict);
      ConfirmedIsSubsequence(rest, verdict);
      assert Confirmed([c], verdict) == (if verdict(c) == Truthy then [c] else []) by {
        assert [c][..0] == [];
      }
      var r := Confirmed(candidates, verdict);
      if verdict(c) == Truthy {
        assert r[0] == c && r[1..] == Confirmed(rest, verdict);
      } else {
        assert r == Confirmed(rest, verdict);
        if r != [] {
          assert IsSubsequence(r, candidates[1..]);
        }
      }
    }
  }

  /** Ascending candidates give ascending confirmed chapters. */
  lemma ConfirmedAscending(candidates: seq<Candidate>, verdict: Candidate -> Verdict)
    requires StrictlyAscending(candidates)
    ensures StrictlyAscending(Confirmed(candidates, verdict))
  {
    ConfirmedIsSubsequence(candidates, verdict);
    SubsequenceKeepsAscending(Confirmed(candidates, verdict), candidates);
  }

  /** A failure on one candidate drops that candidate only: the candidates before
      and after it are judged exactly as if it were absent. */
  lemma FailureDropsOnlyThatCandidate(a: seq<Candidate>, c: Candidate, b: seq<Candidate>, verdict: Candidate -> Verdict)
    requires verdict(c) == Failed
    ensures Confirmed(a + [c] + b, verdict) == Confirmed(a, verdict) + Confirmed(b, verdict)
  {
    var ac := a + [c];
    assert Confirmed(ac, verdict) == Confirmed(a, verdict) by {
      assert ac[..|ac| - 1] == a;
    }
    ConfirmedAppend(ac, b, verdict);
  }

  /** The confirmation loop: one request per candidate, in candidate order. */
  method ConfirmWithLlm(candidates: seq<Candidate>, verdict: Candidate -> Verdict) returns (confirmed: seq<Candidate>)
    ensures confirmed == Confirmed(candidates, verdict)
    ensures forall c :: c in confirmed <==> c in candidates && verdict(c) == Truthy
    ensures IsSubsequence(confirmed, candidates)
  {
    confirmed := [];
    var i := 0;
    while i < |candidates|
      invariant 0 <= i <= |candidates|
      invariant confirmed == Confirmed(candidates[..i], verdict)
    {
      var c := candidates[i];
      assert candidates[..i + 1][..i] == candidates[..i];
      if verdict(c) == Truthy {
        confirmed := confirmed + [c];
      }
      i := i + 1;
    }
    assert candidates[..i] == candidates;
    forall c ensures c in confirmed <==> c in candidates && verdict(c) == Truthy {
      ConfirmedMembership(candidates, verdict, c);
    }
    ConfirmedIsSubsequence(candidates, verdict);
  }
}
