/**
 * The ability-score token codec (src/races.rs:39-97): an `AbilityScores` value is
 * written as entries `abbr+value` joined by `;`, for instance `dex+2;int+1`.
 */
module AbilityCodec {
  import opened Wrappers
  import opened Abilities
  import opened Text

  /** The two errors the decoder raises through `d.error(..)`. */
  datatype DecodeError =
    | MissingValue   // an entry with no `+value` segment ("Unable to parse abilities")
    | InvalidNumber  // a value segment that is not a `u8` ("unable to parse")

  /** The key each field is written under. */
  function Abbr(k: Ability): (name: string)
    ensures |name| == 3 && '+' !in name && ';' !in name
  {
    match k
    case Str => "str"
    case Dex => "dex"
    case Con => "con"
    case Int => "int"
    case Wis => "wis"
    case Cha => "cha"
  }

  /** The six keys are pairwise different. */
  lemma DistinctAbbrs()
    ensures forall j, k :: j != k ==> Abbr(j) != Abbr(k)
  {
    forall j, k | j != k ensures Abbr(j) != Abbr(k) {
      assert Abbr(j)[..2] != Abbr(k)[..2] || Abbr(j)[2] != Abbr(k)[2];
    }
  }

  /** A name is a known key when it is the abbreviation of one of the six fields. */
  predicate IsAbbr(name: string) {
    exists k :: Abbr(k) == name
  }

  /** One `;`-separated entry, as the decoder's `map` closure turns it into a name and a value. */
  datatype Entry = Entry(name: string, value: Result<Score, DecodeError>)

  /** The value segment parsed as a `u8` (lines 46-48). */
  function ParseValue(v: string): (r: Result<Score, DecodeError>)
    ensures r.Ok? <==> v != [] && AllDigits(v) && DigitsValue(v) <= 255
    ensures r.Ok? ==> r.value == DigitsValue(v)
    ensures r.Err? ==> r.error == InvalidNumber
  {
    match ParseU8(v)
    case Some(n) => Ok(n)
    case None => Err(InvalidNumber)
  }

  /**
   * Lines 43-50: the name is the text before the first `+`; the value is the
   * second `+`-segment parsed as a `u8`, or `MissingValue` when there is no `+`.
   */
  function ParseEntry(e: string): (r: Entry)
    ensures '+' !in r.name && |r.name| <= |e| && e[..|r.name|] == r.name
    ensures |r.name| < |e| ==> e[|r.name|] == '+'
    ensures r.value == Err(MissingValue) <==> '+' !in e
  {
    var parts := Split(e, '+');
    JoinStartsWithFirst(parts, '+');
    var value := if |parts| < 2 then Err(MissingValue) else ParseValue(parts[1]);
    Entry(parts[0], value)
  }

  function ParseEntries(es: seq<string>): seq<Entry> {
    seq(|es|, i requires 0 <= i < |es| => ParseEntry(es[i]))
  }

  /** No later entry has the same name as entry `i`. */
  predicate IsLast(ps: seq<Entry>, i: int)
    requires 0 <= i < |ps|
  {
    forall j :: i < j < |ps| ==> ps[j].name != ps[i].name
  }

  /** `.collect::<HashMap<_, _>>()`: the entries are inserted in order, a later one overwriting. */
  function Collect(ps: seq<Entry>): map<string, Result<Score, DecodeError>> {
    if ps == [] then map[]
    else
      var last := ps[|ps| - 1];
      Collect(ps[..|ps| - 1])[last.name := last.value]
  }

  /**
   * The collected map holds exactly the entries' names, each bound to the value of
   * the last entry with that name.
   */
  lemma {:induction false} CollectSpec(ps: seq<Entry>)
    ensures forall i :: 0 <= i < |ps| ==> ps[i].name in Collect(ps)
    ensures forall name :: name in Collect(ps) ==> exists i :: 0 <= i < |ps| && ps[i].name == name
    ensures forall i :: 0 <= i < |ps| && IsLast(ps, i) ==> Collect(ps)[ps[i].name] == ps[i].value
    decreases |ps|
  {
    if ps != [] {
      var init, last := ps[..|ps| - 1], ps[|ps| - 1];
      assert ps == init + [last];
      CollectSpec(init);
      CollectStep(ps, init, last, Collect(init), Collect(ps));
    }
  }

  /** Inserting one more entry keeps the map's description true. */
  lemma CollectStep(ps: seq<Entry>, init: seq<Entry>, last: Entry,
                    before: map<string, Result<Score, DecodeError>>,
                    after: map<string, Result<Score, DecodeError>>)
    requires ps == init + [last]
    requires forall i :: 0 <= i < |init| ==> init[i].name in before
    requires forall name :: name in before ==> exists i :: 0 <= i < |init| && init[i].name == name
    requires forall i :: 0 <= i < |init| && IsLast(init, i) ==> before[init[i].name] == init[i].value
    requires after == before[last.name := last.value]
    ensures forall i :: 0 <= i < |ps| ==> ps[i].name in after
    ensures forall name :: name in after ==> exists i :: 0 <= i < |ps| && ps[i].name == name
    ensures forall i :: 0 <= i < |ps| && IsLast(ps, i) ==> after[ps[i].name] == ps[i].value
  {
    forall i | 0 <= i < |ps|
      ensures ps[i].name in after
    {
      if i < |init| {
        assert ps[i] == init[i];
      }
    }
    forall name | name in after
      ensures exists i :: 0 <= i < |ps| && ps[i].name == name
    {
      if name == last.name {
        assert ps[|init|].name == name;
      } else {
        var i :| 0 <= i < |init| && init[i].name == name;
        assert ps[i] == init[i];
      }
    }
    forall i | 0 <= i < |ps| && IsLast(ps, i)
      ensures after[ps[i].name] == ps[i].value
    {
      if i < |init| {
        assert ps[i] == init[i];
        assert ps[|init|] == last;
        assert IsLast(init, i) by {
          forall j | i < j < |init| ensures init[j].name != init[i].name {
            assert ps[j] == init[j];
          }
        }
      }
    }
  }

  /** One loop step of the decoder: the map for the first `i + 1` entries. */
  lemma CollectNext(es: seq<string>, i: int)
    requires 0 <= i < |es|
    ensures Collect(ParseEntries(es[..i + 1])) ==
      Collect(ParseEntries(es[..i]))[ParseEntry(es[i]).name := ParseEntry(es[i]).value]
  {
    var ps := ParseEntries(es[..i + 1]);
    assert ps[..|ps| - 1] == ParseEntries(es[..i]);
  }

  /** `get_score!` (lines 53-56): the bound value, or 0 when no entry names the field. */
  function Lookup(m: map<string, Result<Score, DecodeError>>, k: Ability): Result<Score, DecodeError> {
    if Abbr(k) in m then m[Abbr(k)] else Ok(0)
  }

  /** Lines 58-65: the six lookups in field order; the first error is returned. */
  function Resolve(m: map<string, Result<Score, DecodeError>>): Result<AbilityScores, DecodeError> {
    var strength :- Lookup(m, Str);
    var dexterity :- Lookup(m, Dex);
    var constitution :- Lookup(m, Con);
    var intelligence :- Lookup(m, Int);
    var wisdom :- Lookup(m, Wis);
    var charisma :- Lookup(m, Cha);
    Ok(AbilityScores(strength, dexterity, constitution, intelligence, wisdom, charisma))
  }

  /** Decoding once the token has been split into entries. */
  function DecodeEntries(es: seq<string>): Result<AbilityScores, DecodeError> {
    Resolve(Collect(ParseEntries(es)))
  }

  /** `AbilityScores::decode` applied to the string the decoder reads. */
  function Decode(s: string): Result<AbilityScores, DecodeError> {
    DecodeEntries(Split(s, ';'))
  }

  /** `format!("{}+{}", abbr, value)`. */
  function Stat(k: Ability, v: Score): string {
    Abbr(k) + "+" + Decimal(v)
  }

  /** The entries written for the fields `ks`, in that order: one per non-zero field. */
  function Stats(a: AbilityScores, ks: seq<Ability>): seq<string>
    decreases |ks|
  {
    if ks == [] then []
    else
      var k := ks[|ks| - 1];
      Stats(a, ks[..|ks| - 1]) + if a.Get(k) > 0 then [Stat(k, a.Get(k))] else []
  }

  /** `AbilityScores::encode`: the non-zero fields in canonical order, joined by `;`. */
  function Encode(a: AbilityScores): string {
    Join(Stats(a, Order), ';')
  }

  /** `abilities.remove(key)` inside `get_score!`: the field's value, and the map without its key. */
  method TakeScore(abilities: map<string, Result<Score, DecodeError>>, k: Ability)
    returns (score: Result<Score, DecodeError>, rest: map<string, Result<Score, DecodeError>>)
    ensures score == Lookup(abilities, k)
    ensures rest == abilities - {Abbr(k)}
    ensures forall j :: j != k ==> Lookup(rest, j) == Lookup(abilities, j)
  {
    DistinctAbbrs();
    rest := abilities - {Abbr(k)};
    if Abbr(k) in abilities {
      score := abilities[Abbr(k)];
    } else {
      score := Ok(0);
    }
  }

  /** Lines 58-65 as the source runs them: remove the six keys in field order, stopping at the first error. */
  method TakeScores(abilities: map<string, Result<Score, DecodeError>>)
    returns (r: Result<AbilityScores, DecodeError>)
    ensures r == Resolve(abilities)
  {
    var rest := abilities;
    var strength, dexterity, constitution, intelligence, wisdom, charisma: Score;
    strength, rest :- TakeScore(rest, Str);
    dexterity, rest :- TakeScore(rest, Dex);
    constitution, rest :- TakeScore(rest, Con);
    intelligence, rest :- TakeScore(rest, Int);
    wisdom, rest :- TakeScore(rest, Wis);
    charisma, rest :- TakeScore(rest, Cha);
    r := Ok(AbilityScores(strength, dexterity, constitution, intelligence, wisdom, charisma));
  }

  /**
   * The decoder as the source runs it: split on `;`, insert each parsed entry into
   * a map, then take the six fields out of it.
   */
  method DecodeToken(s: string) returns (r: Result<AbilityScores, DecodeError>)
    ensures r == Decode(s)
  {
    var entries := Split(s, ';');
    var abilities: map<string, Result<Score, DecodeError>> := map[];
    var i := 0;
    while i < |entries|
      invariant 0 <= i <= |entries|
      invariant abilities == Collect(ParseEntries(entries[..i]))
    {
      var e := ParseEntry(entries[i]);
      CollectNext(entries, i);
      abilities := abilities[e.name := e.value];
      i := i + 1;
    }
    assert entries[..i] == entries;
    r := TakeScores(abilities);
  }

  /**
   * The encoder as the source runs it: one step per field in canonical order,
   * appending `abbr+value` to `val`, behind a `;` unless `val` is still empty.
   */
  method EncodeToken(a: AbilityScores) returns (val: string)
    ensures val == Encode(a)
  {
    val := "";
    for i := 0 to |Order|
      invariant val == Join(Stats(a, Order[..i]), ';')
    {
      var k := Order[i];
      StatsStep(a, Order, i);
      StatsAreEntries(a, Order[..i]);
      if a.Get(k) > 0 {
        var stat := Stat(k, a.Get(k));
        if |val| > 0 {
          JoinSnoc(Stats(a, Order[..i]), stat, ';');
          val := val + ";" + stat;
        } else {
          assert Stats(a, Order[..i]) + [stat] == [stat];
          val := stat;
        }
      }
    }
    assert Order[..|Order|] == Order;
  }

  /** One more field visited: its entry, if it is non-zero, goes after the earlier ones. */
  lemma StatsStep(a: AbilityScores, ks: seq<Ability>, i: int)
    requires 0 <= i < |ks|
    ensures a.Get(ks[i]) > 0 ==> Stats(a, ks[..i + 1]) == Stats(a, ks[..i]) + [Stat(ks[i], a.Get(ks[i]))]
    ensures a.Get(ks[i]) == 0 ==> Stats(a, ks[..i + 1]) == Stats(a, ks[..i])
  {
    assert ks[..i + 1][..i] == ks[..i];
  }

  /** One written entry is non-empty and holds no `;`. */
  lemma StatShape(k: Ability, v: Score)
    ensures |Stat(k, v)| > 0 && ';' !in Stat(k, v)
  {
    var d := Decimal(v);
    assert Stat(k, v) == Abbr(k) + ['+'] + d;
    assert forall i :: 0 <= i < |d| ==> IsDigit(d[i]);
  }

  /** Every written entry is a non-empty `abbr+value` for a non-zero field, without `;`. */
  lemma {:induction false} StatsAreEntries(a: AbilityScores, ks: seq<Ability>)
    ensures forall i :: 0 <= i < |Stats(a, ks)| ==>
      |Stats(a, ks)[i]| > 0 && ';' !in Stats(a, ks)[i]
    ensures Stats(a, ks) == [] ==> Join(Stats(a, ks), ';') == ""
    ensures Stats(a, ks) != [] ==> |Join(Stats(a, ks), ';')| > 0
    decreases |ks|
  {
    var all := Stats(a, ks);
    if ks != [] {
      var k := ks[|ks| - 1];
      var init := Stats(a, ks[..|ks| - 1]);
      StatsAreEntries(a, ks[..|ks| - 1]);
      var tail: seq<string> := if a.Get(k) > 0 then [Stat(k, a.Get(k))] else [];
      if a.Get(k) > 0 {
        StatShape(k, a.Get(k));
      }
      assert all == init + tail;
      forall i | 0 <= i < |all|
        ensures |all[i]| > 0 && ';' !in all[i]
      {
        if i < |init| {
          assert all[i] == init[i];
        } else {
          assert all[i] == tail[i - |init|];
        }
      }
    }
    if all != [] {
      JoinStartsWithFirst(all, ';');
    }
  }
}
