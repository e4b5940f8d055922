/** The level step applied once per message, and how its result is stored. */
module Progression {
  import opened Wrappers
  import opened Text
  import opened Schema

  const Increment: int := 5
  const LevelCap: int := 1000

  /** One step: add the increment unless that would reach the cap; then the level is
      kept as it is (it freezes below the cap instead of saturating to it). */
  function Advance(level: int): int {
    if !(level + Increment >= LevelCap) then level + Increment else level
  }

  /** The text written to the level field: the stepped level followed by "/1000". */
  function LevelText(n: int): string {
    IntToString(n) + "/" + IntToString(LevelCap)
  }

  /** The exception raised when the stored level is not an int (`str + int`, `None + int`). */
  datatype LevelError = TypeError

  /** The level update of one message as written: the stored value must be an int, and
      what is written back is the string `LevelText` of the stepped level. */
  function StepStoredLevel(stored: Value): (r: Result<Value, LevelError>)
    ensures r.Success? <==> stored.Int?
    ensures r.Success? ==> r.value.Str? && r.value == Str(LevelText(Advance(stored.i)))
  {
    match stored
    case Int(level) => Success(Str(LevelText(Advance(level))))
    case _ => Failure(TypeError)
  }

  /** The level update as evidently intended: the level stays an int, and the
      "n/1000" text is only a rendering of it. */
  function StepLevelIntended(stored: Value): (r: Result<Value, LevelError>)
    ensures r.Success? <==> stored.Int?
    ensures r.Success? ==> r.value == Int(Advance(stored.i))
  {
    match stored
    case Int(level) => Success(Int(Advance(level)))
    case _ => Failure(TypeError)
  }

  /** `k` intended steps from a stored value. */
  function StepsIntended(stored: Value, k: nat): Result<Value, LevelError>
    decreases k
  {
    if k == 0 then Success(stored)
    else match StepLevelIntended(stored)
      case Failure(e) => Failure(e)
      case Success(next) => StepsIntended(next, k - 1)
  }

  // ---------------------------------------------------------------------------
  // Lemmas

  /** Below 995 a step adds 5; from 995 up to the cap the level is frozen; it never
      reaches the cap from below, so a level in [0, 1000) stays there. */
  lemma AdvanceShape(level: int)
    ensures level < LevelCap - Increment ==> Advance(level) == level + Increment
    ensures LevelCap - Increment <= level ==> Advance(level) == level
    ensures 0 <= level < LevelCap ==> 0 <= Advance(level) < LevelCap
    ensures Advance(LevelCap) == LevelCap
  {
  }

  /** The level text of a fresh profile's first step is "5/1000". */
  lemma FirstStepText()
    ensures StepStoredLevel(Int(0)) == Success(Str("5/1000"))
  {
    assert Advance(0) == 5;
    assert Digits(5) == "5";
    assert Digits(1) == "1";
    assert Digits(10) == Digits(1) + "0" == "10";
    assert Digits(100) == Digits(10) + "0" == "100";
    assert Digits(1000) == Digits(100) + "0" == "1000";
    assert LevelText(5) == "5" + "/" + "1000" == "5/1000";
  }

  /** As written, a second step always raises: the first one stored a string. */
  lemma {:induction false} SecondStepRaises(level: int)
    ensures StepStoredLevel(Int(level)).Success?
    ensures StepStoredLevel(StepStoredLevel(Int(level)).value) == Failure(TypeError)
  {
  }

  /** As intended, `k` messages from level 0 give 5 per message until the level would
      reach the cap, after which it stays at 995. */
  lemma {:induction false} IntendedLevelAfter(k: nat)
    ensures StepsIntended(Int(0), k) == Success(Int(if Increment * k < LevelCap then Increment * k else LevelCap - Increment))
  {
    StepsFrom(0, k);
  }

  lemma {:induction false} StepsFrom(start: nat, k: nat)
    requires start % Increment == 0 && start < LevelCap
    ensures StepsIntended(Int(start), k) ==
      Success(Int(if start + Increment * k < LevelCap then start + Increment * k else LevelCap - Increment))
    decreases k
  {
    if k > 0 {
      var next := Advance(start);
      assert StepLevelIntended(Int(start)) == Success(Int(next));
      StepsFrom(next, k - 1);
    }
  }
}
