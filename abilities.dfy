/** The six-field ability-score bonus record and its field-wise addition (src/races.rs:12-37). */
module Abilities {

  /** `type Score = u8`. */
  type Score = x: int | 0 <= x <= 255

  /** The six fields, as a table: the declaration order is also the canonical order. */
  datatype Ability = Str | Dex | Con | Int | Wis | Cha

  const Order: seq<Ability> := [Str, Dex, Con, Int, Wis, Cha]

  datatype AbilityScores = AbilityScores(
    strength: Score,
    dexterity: Score,
    constitution: Score,
    intelligence: Score,
    wisdom: Score,
    charisma: Score)
  {
    /** The field that `k` names. */
    function Get(k: Ability): Score {
      match k
      case Str => strength
      case Dex => dexterity
      case Con => constitution
      case Int => intelligence
      case Wis => wisdom
      case Cha => charisma
    }

    /** The record with the field that `k` names replaced by `v`. */
    function With(k: Ability, v: Score): (r: AbilityScores)
      ensures r.Get(k) == v
      ensures forall j :: j != k ==> r.Get(j) == Get(j)
    {
      match k
      case Str => this.(strength := v)
      case Dex => this.(dexterity := v)
      case Con => this.(constitution := v)
      case Int => this.(intelligence := v)
      case Wis => this.(wisdom := v)
      case Cha => this.(charisma := v)
    }
  }

  /** `#[derive(Default)]`: every field zero. */
  const Zero := AbilityScores(0, 0, 0, 0, 0, 0)

  lemma {:induction false} OrderListsEveryAbility(k: Ability)
    ensures k in Order
    ensures |Order| == 6
  {
    match k
    case Str => assert Order[0] == k;
    case Dex => assert Order[1] == k;
    case Con => assert Order[2] == k;
    case Int => assert Order[3] == k;
    case Wis => assert Order[4] == k;
    case Cha => assert Order[5] == k;
  }

  /** Two records agreeing on every field are equal. */
  lemma ScoresExtensional(a: AbilityScores, b: AbilityScores)
    requires forall k :: a.Get(k) == b.Get(k)
    ensures a == b
  {
    assert a.Get(Str) == b.Get(Str) && a.Get(Dex) == b.Get(Dex) && a.Get(Con) == b.Get(Con);
    assert a.Get(Int) == b.Get(Int) && a.Get(Wis) == b.Get(Wis) && a.Get(Cha) == b.Get(Cha);
  }

  /** `u8` addition panics on overflow, so `Add` may only be applied when no field sum exceeds 255. */
  predicate CanAdd(a: AbilityScores, b: AbilityScores) {
    forall k :: a.Get(k) + b.Get(k) <= 255
  }

  /** `impl Add for AbilityScores`: the field-wise sum. */
  function Add(a: AbilityScores, b: AbilityScores): (r: AbilityScores)
    requires CanAdd(a, b)
    ensures forall k :: r.Get(k) == a.Get(k) + b.Get(k)
  {
    assert a.Get(Str) + b.Get(Str) <= 255 && a.Get(Dex) + b.Get(Dex) <= 255;
    assert a.Get(Con) + b.Get(Con) <= 255 && a.Get(Int) + b.Get(Int) <= 255;
    assert a.Get(Wis) + b.Get(Wis) <= 255 && a.Get(Cha) + b.Get(Cha) <= 255;
    AbilityScores(
      a.strength + b.strength,
      a.dexterity + b.dexterity,
      a.constitution + b.constitution,
      a.intelligence + b.intelligence,
      a.wisdom + b.wisdom,
      a.charisma + b.charisma)
  }

  /** Addition does not depend on the order of its operands. */
  lemma AddCommutes(a: AbilityScores, b: AbilityScores)
    requires CanAdd(a, b)
    ensures CanAdd(b, a) && Add(a, b) == Add(b, a)
  {
    ScoresExtensional(Add(a, b), Add(b, a));
  }

  /** The default record is the identity of addition, on either side. */
  lemma AddZero(a: AbilityScores)
    ensures CanAdd(Zero, a) && Add(Zero, a) == a
    ensures CanAdd(a, Zero) && Add(a, Zero) == a
  {
    assert forall k :: Zero.Get(k) == 0;
    ScoresExtensional(Add(Zero, a), a);
    ScoresExtensional(Add(a, Zero), a);
  }
}
