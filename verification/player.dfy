/** The score ledger of Player.py: a named player whose score starts at 0 and only grows. */
module Players {
  import opened Wrappers
  import opened Text

  datatype PlayerError =
    | EmptyName      // "name must not be empty"
    | NegativeScore  // "score must be >= to 0"

  /** `add_score(delta)` on a score value: rejected when negative, otherwise added. */
  function AddScoreSpec(score: int, delta: int): (r: (Outcome<PlayerError>, int))
    ensures r.0.Fail? <==> delta < 0
    ensures r.0.Fail? ==> r.0.error == NegativeScore && r.1 == score
    ensures r.0.Pass? ==> r.1 - score == delta
  {
    if delta < 0 then (Fail(NegativeScore), score) else (Pass, score + delta)
  }

  /** A run of `add_score` calls, failed calls included. */
  function ApplyAll(score: int, deltas: seq<int>): int
    decreases |deltas|
  {
    if deltas == [] then score else ApplyAll(AddScoreSpec(score, deltas[0]).1, deltas[1..])
  }

  /** The sum of the accepted (non-negative) deltas. */
  function AcceptedSum(deltas: seq<int>): nat
  {
    if deltas == [] then 0 else (if deltas[0] >= 0 then deltas[0] else 0) + AcceptedSum(deltas[1..])
  }

  /**
   * Over any run of calls the final score is the start plus exactly the accepted deltas,
   * so it never decreases and stays non-negative from a non-negative start.
   */
  lemma {:induction false} ApplyAllIsAcceptedSum(score: int, deltas: seq<int>)
    ensures ApplyAll(score, deltas) == score + AcceptedSum(deltas)
    ensures ApplyAll(score, deltas) >= score
    ensures score >= 0 ==> ApplyAll(score, deltas) >= 0
    decreases |deltas|
  {
    if deltas != [] {
      ApplyAllIsAcceptedSum(AddScoreSpec(score, deltas[0]).1, deltas[1..]);
    }
  }

  /** The text `__str__` shows: the word Player, the name, a bar separator, then the score. */
  function Describe(name: string, score: nat): (s: string)
    ensures |s| > 7 + |name| + 11
    ensures s[..7 + |name|] == "Player " + name
    ensures s[7 + |name| .. 7 + |name| + 11] == " |  Score: "
    ensures ParseNat(s[7 + |name| + 11 ..]) == Some(score)
  {
    var s := "Player " + name + " |  Score: " + NatToString(score);
    NatToStringRoundTrip(score);
    assert s[7 + |name| + 11 ..] == NatToString(score);
    s
  }

  class Player {
    const name: string
    var score: int

    ghost predicate Valid()
      reads this
    {
      score >= 0 && !IsBlank(name)
    }

    /** `__init__` once the name check passed: the score starts at 0. */
    constructor (name: string)
      requires !IsBlank(name)
      ensures Valid() && this.name == name && score == 0
    {
      this.name := name;
      score := 0;
    }

    /** `Player(name)`: raises on an empty or whitespace-only name. */
    static method Create(name: string) returns (r: Result<Player, PlayerError>)
      ensures r.Failure? <==> IsBlank(name)
      ensures r.Failure? ==> r.error == EmptyName
      ensures r.Success? ==> fresh(r.value) && r.value.Valid() && r.value.name == name && r.value.score == 0
    {
      if IsBlank(name) {
        return Failure(EmptyName);
      }
      var p := new Player(name);
      return Success(p);
    }

    /** `add_score(delta)`. */
    method AddScore(delta: int) returns (r: Outcome<PlayerError>)
      requires Valid()
      modifies this
      ensures Valid()
      ensures (r, score) == AddScoreSpec(old(score), delta)
      ensures score >= old(score)
    {
      if !(delta >= 0) {
        return Fail(NegativeScore);
      }
      score := score + delta;
      return Pass;
    }

    /** `get_score()`: a read; the score is never negative. */
    function GetScore(): (s: int)
      reads this
      requires Valid()
      ensures s >= 0
    {
      score
    }

    /** `__str__`. */
    function ToString(): string
      reads this
      requires Valid()
    {
      Describe(name, score)
    }
  }
}
