/** Per-attribute feedback on a guess: whether it matches the mystery
    player's attribute, and for the numeric attributes which way the mystery
    value lies. */
module Feedback {
  import opened Wrappers
  import opened Players

  /** The attributes a guess is compared on (every field but the name). */
  datatype Field = Position | Age | Team | AllStar | WorldSeries {
    /** The attributes `getDirectionalHint` accepts. */
    predicate IsNumeric() {
      Age? || AllStar? || WorldSeries?
    }
  }

  /** A field's value: TypeScript compares both kinds with `===`. */
  datatype Value = Str(s: string) | Num(n: int)

  function FieldValue(p: Player, f: Field): Value {
    match f
    case Position => Str(p.position)
    case Age => Num(p.age)
    case Team => Str(p.team)
    case AllStar => Num(p.allStar)
    case WorldSeries => Num(p.worldSeries)
  }

  /** The integer behind a numeric field. */
  function Ordinal(p: Player, f: Field): int
    requires f.IsNumeric()
  {
    FieldValue(p, f).n
  }

  /** `isMatch`: the guess agrees with the mystery player on `f`; never a
      match while no mystery player has been drawn. */
  predicate IsMatch(mystery: Option<Player>, guess: Player, f: Field)
    ensures IsMatch(mystery, guess, f) ==> mystery.Some?
    ensures mystery == Some(guess) ==> IsMatch(mystery, guess, f)
  {
    mystery.Some? && FieldValue(guess, f) == FieldValue(mystery.value, f)
  }

  /** What `getDirectionalHint` renders: nothing, an up arrow (the mystery
      value is higher) or a down arrow (it is lower). */
  datatype Hint = NoHint | Up | Down

  function DirectionalHint(mystery: Option<Player>, guess: Player, f: Field): (r: Hint)
    requires f.IsNumeric()
    ensures r == NoHint <==> (mystery.None? || IsMatch(mystery, guess, f))
    ensures r == Up <==> (mystery.Some? && Ordinal(guess, f) < Ordinal(mystery.value, f))
    ensures r == Down <==> (mystery.Some? && Ordinal(guess, f) > Ordinal(mystery.value, f))
  {
    if mystery.None? then NoHint
    else if Ordinal(guess, f) == Ordinal(mystery.value, f) then NoHint
    else if Ordinal(guess, f) < Ordinal(mystery.value, f) then Up
    else Down
  }

  /** Matching is symmetric in the two players. */
  lemma MatchSymmetric(m: Player, g: Player, f: Field)
    ensures IsMatch(Some(m), g, f) <==> IsMatch(Some(g), m, f)
  {
  }

  /** A guess matches on all five attributes exactly when it is the mystery
      player under another name. */
  lemma AllMatch(m: Player, g: Player)
    ensures (forall f: Field :: IsMatch(Some(m), g, f)) <==> g == m.(name := g.name)
  {
    if forall f: Field :: IsMatch(Some(m), g, f) {
      assert IsMatch(Some(m), g, Position) && IsMatch(Some(m), g, Age) && IsMatch(Some(m), g, Team);
      assert IsMatch(Some(m), g, AllStar) && IsMatch(Some(m), g, WorldSeries);
    }
  }

  /** Swapping guess and mystery player swaps the arrows. */
  lemma HintSwap(m: Player, g: Player, f: Field)
    requires f.IsNumeric()
    ensures DirectionalHint(Some(m), g, f) == Up <==> DirectionalHint(Some(g), m, f) == Down
    ensures DirectionalHint(Some(m), g, f) == Down <==> DirectionalHint(Some(g), m, f) == Up
    ensures DirectionalHint(Some(m), g, f) == NoHint <==> DirectionalHint(Some(g), m, f) == NoHint
  {
  }

  /** A worked example: mystery A = (P1, 30, T1, 1, 0), guess
      B = (P2, 25, T2, 3, 1). */
  lemma HintExample()
    ensures
      var a := Player("A", "P1", 30, "T1", 1, 0);
      var b := Player("B", "P2", 25, "T2", 3, 1);
      && (forall f: Field :: !IsMatch(Some(a), b, f))
      && DirectionalHint(Some(a), b, Age) == Up
      && DirectionalHint(Some(a), b, AllStar) == Down
      && DirectionalHint(Some(a), b, WorldSeries) == Down
  {
  }
}
