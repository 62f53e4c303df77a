/**
 * Races as the data file describes them, and `PartialRace::solidify`, which merges
 * a base race with a chosen sub-race into one resolved race (src/races.rs:99-152).
 */
module Races {
  import opened Wrappers
  import opened Abilities
  import opened Text
  import opened AbilityCodec
  import opened CodecProperties

  type U8 = x: int | 0 <= x <= 255
  type U16 = x: int | 0 <= x <= 65535

  /** A named rule text, carried through unchanged. */
  datatype Trait = Trait(name: string, desc: string)

  /** A race or sub-race layer: every optional field is what this layer specifies. */
  datatype PartialRace = PartialRace(
    speed: Option<U8>,
    abilities: AbilityScores,
    subraces: Option<map<string, PartialRace>>,
    hpBonus: Option<U8>,
    page: Option<U16>,
    traits: seq<Trait>,
    weaponProficiencies: seq<string>,
    toolProficiencies: seq<string>,
    armorProficiencies: seq<string>)

  /** `PartialRace::default()`: what a caller passes when no sub-race is chosen. */
  const NoSubrace := PartialRace(None, Zero, None, None, None, [], [], [], [])

  /** A fully resolved race: the speed is no longer optional and there are no sub-races. */
  datatype Race = Race(
    speed: U8,
    abilities: AbilityScores,
    hpBonus: Option<U8>,
    page: Option<U16>,
    traits: seq<Trait>,
    weaponProficiencies: seq<string>,
    toolProficiencies: seq<string>,
    armorProficiencies: seq<string>)

  /** `r` is `base` followed by `sub`: nothing dropped, merged or reordered. */
  predicate Stacked<T(==)>(r: seq<T>, base: seq<T>, sub: seq<T>) {
    |r| == |base| + |sub| && r[..|base|] == base && r[|base|..] == sub
  }

  /**
   * `solidify(self, subrace)`. The speed comes from the sub-race if it has one and
   * from the base otherwise (`expect` panics when neither has one); the ability
   * bonuses add up (`u8` addition panics on overflow); hit-point bonus and page
   * are overridden by the sub-race when it has them; the four lists are the
   * base's followed by the sub-race's. Sub-races of either layer are dropped.
   */
  function Solidify(base: PartialRace, sub: PartialRace): (r: Race)
    requires sub.speed.Some? || base.speed.Some?
    requires CanAdd(sub.abilities, base.abilities)
    ensures r.speed == if sub.speed.Some? then sub.speed.value else base.speed.value
    ensures forall k :: r.abilities.Get(k) == base.abilities.Get(k) + sub.abilities.Get(k)
    ensures r.hpBonus == if sub.hpBonus.Some? then sub.hpBonus else base.hpBonus
    ensures r.page == if sub.page.Some? then sub.page else base.page
    ensures Stacked(r.traits, base.traits, sub.traits)
    ensures Stacked(r.weaponProficiencies, base.weaponProficiencies, sub.weaponProficiencies)
    ensures Stacked(r.toolProficiencies, base.toolProficiencies, sub.toolProficiencies)
    ensures Stacked(r.armorProficiencies, base.armorProficiencies, sub.armorProficiencies)
  {
    Race(
      speed := sub.speed.Or(base.speed).value,
      abilities := Add(sub.abilities, base.abilities),
      hpBonus := sub.hpBonus.Or(base.hpBonus),
      page := sub.page.Or(base.page),
      traits := base.traits + sub.traits,
      weaponProficiencies := base.weaponProficiencies + sub.weaponProficiencies,
      toolProficiencies := base.toolProficiencies + sub.toolProficiencies,
      armorProficiencies := base.armorProficiencies + sub.armorProficiencies)
  }

  /**
   * One `merge!` step: clone the base list, then `append` a clone of the
   * sub-race list to it.
   */
  method Merge<T>(base: seq<T>, sub: seq<T>) returns (tmp: seq<T>)
    ensures Stacked(tmp, base, sub)
  {
    tmp := base;
    tmp := tmp + sub;
  }

  /** `solidify` as the source runs it: the scalar fields first, then each list through `merge!`. */
  method SolidifyRace(base: PartialRace, sub: PartialRace) returns (r: Race)
    requires sub.speed.Some? || base.speed.Some?
    requires CanAdd(sub.abilities, base.abilities)
    ensures r == Solidify(base, sub)
  {
    var traits := Merge(base.traits, sub.traits);
    var weapons := Merge(base.weaponProficiencies, sub.weaponProficiencies);
    var tools := Merge(base.toolProficiencies, sub.toolProficiencies);
    var armor := Merge(base.armorProficiencies, sub.armorProficiencies);
    r := Race(sub.speed.Or(base.speed).value, Add(sub.abilities, base.abilities),
              sub.hpBonus.Or(base.hpBonus), sub.page.Or(base.page), traits, weapons, tools, armor);
    StackedIsConcat(traits, base.traits, sub.traits);
    StackedIsConcat(weapons, base.weaponProficiencies, sub.weaponProficiencies);
    StackedIsConcat(tools, base.toolProficiencies, sub.toolProficiencies);
    StackedIsConcat(armor, base.armorProficiencies, sub.armorProficiencies);
  }

  /** A stacked list is exactly the concatenation. */
  lemma StackedIsConcat<T>(r: seq<T>, base: seq<T>, sub: seq<T>)
    requires Stacked(r, base, sub)
    ensures r == base + sub
  {
    assert r == r[..|base|] + r[|base|..];
  }

  /** With no sub-race chosen, the result is the base race standing alone. */
  lemma SolidifyAlone(base: PartialRace)
    requires base.speed.Some?
    ensures CanAdd(NoSubrace.abilities, base.abilities)
    ensures Solidify(base, NoSubrace) == Race(base.speed.value, base.abilities, base.hpBonus, base.page,
      base.traits, base.weaponProficiencies, base.toolProficiencies, base.armorProficiencies)
  {
    AddZero(base.abilities);
    assert base.traits + [] == base.traits;
    assert base.weaponProficiencies + [] == base.weaponProficiencies;
    assert base.toolProficiencies + [] == base.toolProficiencies;
    assert base.armorProficiencies + [] == base.armorProficiencies;
  }

  /** The bonuses stack: the merged record is the sum of the two layers', in either order. */
  lemma SolidifyAddsAbilities(base: PartialRace, sub: PartialRace)
    requires sub.speed.Some? || base.speed.Some?
    requires CanAdd(sub.abilities, base.abilities)
    ensures CanAdd(base.abilities, sub.abilities)
    ensures Solidify(base, sub).abilities == Add(base.abilities, sub.abilities)
  {
    AddCommutes(sub.abilities, base.abilities);
  }

  /** No list item is deduplicated or lost: each item occurs as often as in the two layers together. */
  lemma SolidifyKeepsEveryItem(base: PartialRace, sub: PartialRace, t: Trait, p: string)
    requires sub.speed.Some? || base.speed.Some?
    requires CanAdd(sub.abilities, base.abilities)
    ensures multiset(Solidify(base, sub).traits)[t] == multiset(base.traits)[t] + multiset(sub.traits)[t]
    ensures multiset(Solidify(base, sub).weaponProficiencies)[p] ==
      multiset(base.weaponProficiencies)[p] + multiset(sub.weaponProficiencies)[p]
    ensures multiset(Solidify(base, sub).toolProficiencies)[p] ==
      multiset(base.toolProficiencies)[p] + multiset(sub.toolProficiencies)[p]
    ensures multiset(Solidify(base, sub).armorProficiencies)[p] ==
      multiset(base.armorProficiencies)[p] + multiset(sub.armorProficiencies)[p]
  {
    var r := Solidify(base, sub);
    assert r.traits == base.traits + sub.traits;
    assert r.weaponProficiencies == base.weaponProficiencies + sub.weaponProficiencies;
    assert r.toolProficiencies == base.toolProficiencies + sub.toolProficiencies;
    assert r.armorProficiencies == base.armorProficiencies + sub.armorProficiencies;
  }

  /** The sub-race tables of either layer play no part in the result. */
  lemma SolidifyIgnoresSubraces(base: PartialRace, sub: PartialRace,
                                x: Option<map<string, PartialRace>>, y: Option<map<string, PartialRace>>)
    requires sub.speed.Some? || base.speed.Some?
    requires CanAdd(sub.abilities, base.abilities)
    ensures Solidify(base.(subraces := x), sub.(subraces := y)) == Solidify(base, sub)
  {
  }

  /**
   * An elf (`speed = 30`, `abilities = "dex+2"`) with the high-elf sub-race
   * (`abilities = "int+1"`) resolves to speed 30, dexterity 2, intelligence 1.
   */
  lemma HighElf()
    ensures Decode("dex+2") == Ok(Zero.With(Dex, 2))
    ensures Decode("int+1") == Ok(Zero.With(Int, 1))
    ensures Solidify(NoSubrace.(speed := Some(30), abilities := Zero.With(Dex, 2)),
                     NoSubrace.(abilities := Zero.With(Int, 1))).speed == 30
    ensures Solidify(NoSubrace.(speed := Some(30), abilities := Zero.With(Dex, 2)),
                     NoSubrace.(abilities := Zero.With(Int, 1))).abilities == AbilityScores(0, 2, 0, 1, 0, 0)
  {
    assert Decimal(2) == "2" && Decimal(1) == "1";
    assert Stat(Dex, 2) == "dex+2" && Stat(Int, 1) == "int+1";
    DecodeSingleStat(Dex, 2);
    DecodeSingleStat(Int, 1);
    var r := Solidify(NoSubrace.(speed := Some(30), abilities := Zero.With(Dex, 2)),
                      NoSubrace.(abilities := Zero.With(Int, 1)));
    ScoresExtensional(r.abilities, AbilityScores(0, 2, 0, 1, 0, 0));
  }
}
