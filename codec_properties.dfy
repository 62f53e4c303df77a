/** What the ability-score codec promises: how a token is read, how values are written, and the round trip. */
module CodecProperties {
  import opened Wrappers
  import opened Abilities
  import opened Text
  import opened AbilityCodec

  /** Two maps that give the same result for every field lookup. */
  predicate SameFields(m1: map<string, Result<Score, DecodeError>>, m2: map<string, Result<Score, DecodeError>>) {
    forall k :: Lookup(m1, k) == Lookup(m2, k)
  }

  /**
   * The six lookups decide the result: it is a success exactly when every lookup
   * is, holding the looked-up values, and otherwise it is the error of the first
   * failing field in the order str, dex, con, int, wis, cha.
   */
  lemma ResolveSpec(m: map<string, Result<Score, DecodeError>>)
    ensures Resolve(m).Ok? <==> forall k :: Lookup(m, k).Ok?
    ensures Resolve(m).Ok? ==> forall k :: Resolve(m).value.Get(k) == Lookup(m, k).value
    ensures Resolve(m).Err? ==>
      exists n :: 0 <= n < |Order| && Lookup(m, Order[n]) == Err(Resolve(m).error) &&
        forall j :: 0 <= j < n ==> Lookup(m, Order[j]).Ok?
  {
    if Resolve(m).Ok? {
      forall k ensures Lookup(m, k).Ok? && Resolve(m).value.Get(k) == Lookup(m, k).value {
        match k
        case Str => case Dex => case Con => case Int => case Wis => case Cha =>
      }
    } else {
      var e := Resolve(m).error;
      if Lookup(m, Str).Err? { assert Lookup(m, Order[0]) == Err(e); }
      else if Lookup(m, Dex).Err? { assert Lookup(m, Order[1]) == Err(e); }
      else if Lookup(m, Con).Err? { assert Lookup(m, Order[2]) == Err(e); }
      else if Lookup(m, Int).Err? { assert Lookup(m, Order[3]) == Err(e); }
      else if Lookup(m, Wis).Err? { assert Lookup(m, Order[4]) == Err(e); }
      else { assert Lookup(m, Order[5]) == Err(e); }
    }
  }

  /** A map whose every lookup succeeds with the fields of `a` resolves to `a`. */
  lemma ResolveToRecord(m: map<string, Result<Score, DecodeError>>, a: AbilityScores)
    requires forall k :: Lookup(m, k) == Ok(a.Get(k))
    ensures Resolve(m) == Ok(a)
  {
    assert Lookup(m, Str) == Ok(a.Get(Str)) && Lookup(m, Dex) == Ok(a.Get(Dex));
    assert Lookup(m, Con) == Ok(a.Get(Con)) && Lookup(m, Int) == Ok(a.Get(Int));
    assert Lookup(m, Wis) == Ok(a.Get(Wis)) && Lookup(m, Cha) == Ok(a.Get(Cha));
  }

  /** Maps that agree on every field resolve alike. */
  lemma ResolveSameFields(m1: map<string, Result<Score, DecodeError>>, m2: map<string, Result<Score, DecodeError>>)
    requires SameFields(m1, m2)
    ensures Resolve(m1) == Resolve(m2)
  {
    assert Lookup(m1, Str) == Lookup(m2, Str) && Lookup(m1, Dex) == Lookup(m2, Dex);
    assert Lookup(m1, Con) == Lookup(m2, Con) && Lookup(m1, Int) == Lookup(m2, Int);
    assert Lookup(m1, Wis) == Lookup(m2, Wis) && Lookup(m1, Cha) == Lookup(m2, Cha);
  }

  lemma ParseEntriesAppend(a: seq<string>, b: seq<string>)
    ensures ParseEntries(a + b) == ParseEntries(a) + ParseEntries(b)
  {
  }

  lemma CollectSnoc(ps: seq<Entry>, p: Entry)
    ensures Collect(ps + [p]) == Collect(ps)[p.name := p.value]
  {
    assert (ps + [p])[..|ps|] == ps;
  }

  /** Maps that agree on every field keep agreeing when the same entries are inserted into both. */
  lemma {:induction false} CollectAppendSameFields(ps1: seq<Entry>, ps2: seq<Entry>, rest: seq<Entry>)
    requires SameFields(Collect(ps1), Collect(ps2))
    ensures SameFields(Collect(ps1 + rest), Collect(ps2 + rest))
    decreases |rest|
  {
    if rest != [] {
      var init, last := rest[..|rest| - 1], rest[|rest| - 1];
      CollectAppendSameFields(ps1, ps2, init);
      assert ps1 + rest == (ps1 + init) + [last];
      assert ps2 + rest == (ps2 + init) + [last];
      CollectSnoc(ps1 + init, last);
      CollectSnoc(ps2 + init, last);
      forall k ensures Lookup(Collect(ps1 + rest), k) == Lookup(Collect(ps2 + rest), k) {
        assert Lookup(Collect(ps1 + init), k) == Lookup(Collect(ps2 + init), k);
      }
    } else {
      assert ps1 + rest == ps1 && ps2 + rest == ps2;
    }
  }

  /** Decoding a string is decoding its `;`-separated entries. */
  lemma DecodeJoin(es: seq<string>)
    requires es != []
    requires Separable(es)
    ensures Decode(Join(es, ';')) == DecodeEntries(es)
  {
    SplitJoin(es, ';');
  }

  /** Parsing the entries of a token in three parts, part by part. */
  lemma ParseEntriesAround(a: seq<string>, mid: seq<string>, b: seq<string>)
    ensures ParseEntries(a + mid + b) == ParseEntries(a) + ParseEntries(mid) + ParseEntries(b)
  {
  }

  /** An entry whose name is none of the six keys changes nothing, wherever it stands, however malformed. */
  lemma UnknownEntryIgnored(a: seq<string>, e: string, b: seq<string>)
    requires !IsAbbr(ParseEntry(e).name)
    ensures DecodeEntries(a + [e] + b) == DecodeEntries(a + b)
  {
    var pa, pe, pb := ParseEntries(a), ParseEntry(e), ParseEntries(b);
    ParseEntriesAround(a, [e], b);
    ParseEntriesAppend(a, b);
    assert ParseEntries([e]) == [pe];
    CollectSnoc(pa, pe);
    assert SameFields(Collect(pa + [pe]), Collect(pa)) by {
      forall k ensures Lookup(Collect(pa + [pe]), k) == Lookup(Collect(pa), k) {
        assert Abbr(k) != pe.name;
      }
    }
    CollectAppendSameFields(pa + [pe], pa, pb);
    ResolveSameFields(Collect(pa + [pe] + pb), Collect(pa + pb));
  }

  /** Inserting two entries with different names in either order gives the same map. */
  lemma CollectSwap(ps: seq<Entry>, p1: Entry, p2: Entry)
    requires p1.name != p2.name
    ensures Collect(ps + [p1, p2]) == Collect(ps + [p2, p1])
  {
    assert ps + [p1, p2] == (ps + [p1]) + [p2];
    assert ps + [p2, p1] == (ps + [p2]) + [p1];
    CollectSnoc(ps, p1);
    CollectSnoc(ps + [p1], p2);
    CollectSnoc(ps, p2);
    CollectSnoc(ps + [p2], p1);
  }

  /** Two neighbouring entries with different names can trade places. */
  lemma DistinctEntriesCommute(a: seq<string>, e1: string, e2: string, b: seq<string>)
    requires ParseEntry(e1).name != ParseEntry(e2).name
    ensures DecodeEntries(a + [e1, e2] + b) == DecodeEntries(a + [e2, e1] + b)
  {
    var pa, p1, p2, pb := ParseEntries(a), ParseEntry(e1), ParseEntry(e2), ParseEntries(b);
    ParseEntriesAround(a, [e1, e2], b);
    ParseEntriesAround(a, [e2, e1], b);
    assert ParseEntries([e1, e2]) == [p1, p2] && ParseEntries([e2, e1]) == [p2, p1];
    CollectSwap(pa, p1, p2);
    CollectAppendSameFields(pa + [p1, p2], pa + [p2, p1], pb);
  }

  /** Entries that can be joined with `;` and split back. */
  predicate Separable(es: seq<string>) {
    forall i :: 0 <= i < |es| ==> ';' !in es[i]
  }

  lemma SeparableAround(a: seq<string>, mid: seq<string>, b: seq<string>)
    requires Separable(a) && Separable(mid) && Separable(b)
    ensures Separable(a + mid + b)
  {
    var x := a + mid + b;
    forall i | 0 <= i < |x| ensures ';' !in x[i] {
      if i < |a| { assert x[i] == a[i]; }
      else if i < |a| + |mid| { assert x[i] == mid[i - |a|]; }
      else { assert x[i] == b[i - |a| - |mid|]; }
    }
  }

  /** Reordering two neighbouring entries of a token with different names gives the same scores. */
  lemma DecodeReorder(a: seq<string>, e1: string, e2: string, b: seq<string>)
    requires Separable(a) && Separable(b) && ';' !in e1 && ';' !in e2
    requires ParseEntry(e1).name != ParseEntry(e2).name
    ensures Decode(Join(a + [e1, e2] + b, ';')) == Decode(Join(a + [e2, e1] + b, ';'))
  {
    SeparableAround(a, [e1, e2], b);
    SeparableAround(a, [e2, e1], b);
    DecodeJoin(a + [e1, e2] + b);
    DecodeJoin(a + [e2, e1] + b);
    DistinctEntriesCommute(a, e1, e2, b);
  }

  /** How `abbr+value` entries (and their malformed relatives) are read. */
  lemma ParseStat(name: string, v: string)
    requires '+' !in name && '+' !in v
    ensures ParseEntry(name + "+" + v) == Entry(name, ParseValue(v))
  {
    SplitAtSep(name, v, '+');
    SplitWithoutSep(name, '+');
    SplitWithoutSep(v, '+');
  }

  /** Segments after the second `+` are ignored. */
  lemma ExtraSegmentsIgnored(name: string, v: string, rest: string)
    requires '+' !in name && '+' !in v
    ensures ParseEntry(name + "+" + v + "+" + rest) == ParseEntry(name + "+" + v)
  {
    ParseStat(name, v);
    assert name + "+" + v + "+" + rest == name + ['+'] + (v + ['+'] + rest);
    SplitAtSep(name, v + ['+'] + rest, '+');
    SplitAtSep(v, rest, '+');
    SplitWithoutSep(name, '+');
    SplitWithoutSep(v, '+');
  }

  /**
   * A field that no entry names decodes as 0; the last entry naming a field
   * decides it, either as its value or, when that entry is malformed, as a failure.
   */
  lemma DecodeFieldSpec(s: string, k: Ability)
    ensures (forall i :: 0 <= i < |Split(s, ';')| ==> ParseEntry(Split(s, ';')[i]).name != Abbr(k)) ==>
      Decode(s).Ok? ==> Decode(s).value.Get(k) == 0
    ensures forall i :: (0 <= i < |Split(s, ';')| && ParseEntries(Split(s, ';'))[i].name == Abbr(k) &&
                         IsLast(ParseEntries(Split(s, ';')), i)) ==>
        if ParseEntries(Split(s, ';'))[i].value.Ok?
        then Decode(s).Ok? ==> Decode(s).value.Get(k) == ParseEntries(Split(s, ';'))[i].value.value
        else Decode(s).Err?
  {
    var ps := ParseEntries(Split(s, ';'));
    var m := Collect(ps);
    CollectSpec(ps);
    ResolveSpec(m);
    if Abbr(k) in m {
      var i :| 0 <= i < |ps| && ps[i].name == Abbr(k);
    }
  }

  /** Decoding fails only through the last entry of one of the six keys. */
  lemma DecodeFailsOnKnownField(s: string)
    ensures Decode(s).Err? ==>
      exists i :: 0 <= i < |Split(s, ';')| && IsLast(ParseEntries(Split(s, ';')), i) &&
        IsAbbr(ParseEntries(Split(s, ';'))[i].name) &&
        ParseEntries(Split(s, ';'))[i].value == Err(Decode(s).error)
  {
    var ps := ParseEntries(Split(s, ';'));
    var m := Collect(ps);
    CollectSpec(ps);
    ResolveSpec(m);
    if Decode(s).Err? {
      var n :| 0 <= n < |Order| && Lookup(m, Order[n]) == Err(Decode(s).error);
      var key := Abbr(Order[n]);
      assert key in m;
      var i :| 0 <= i < |ps| && ps[i].name == key;
      LastWithName(ps, i);
      var j :| i <= j < |ps| && ps[j].name == key && IsLast(ps, j);
      assert IsAbbr(ps[j].name);
    }
  }

  /** Every entry has a last entry with the same name, at or after it. */
  lemma {:induction false} LastWithName(ps: seq<Entry>, i: int)
    requires 0 <= i < |ps|
    ensures exists j :: i <= j < |ps| && ps[j].name == ps[i].name && IsLast(ps, j)
    decreases |ps| - i
  {
    if !IsLast(ps, i) {
      var j :| i < j < |ps| && ps[j].name == ps[i].name;
      LastWithName(ps, j);
    }
  }

  // Encoding

  /** A written entry reads back as its field's key and value. */
  lemma ParseWrittenStat(k: Ability, v: Score)
    ensures ParseEntry(Stat(k, v)) == Entry(Abbr(k), Ok(v))
  {
    assert '+' !in Decimal(v) by {
      assert forall i :: 0 <= i < |Decimal(v)| ==> IsDigit(Decimal(v)[i]);
    }
    ParseStat(Abbr(k), Decimal(v));
    ParseDecimal(v);
  }

  /** The entries written for the fields `ks` are exactly the `abbr+value` of their non-zero fields. */
  lemma {:induction false} StatsMembers(a: AbilityScores, ks: seq<Ability>)
    ensures forall x :: x in Stats(a, ks) <==> exists k :: k in ks && a.Get(k) > 0 && x == Stat(k, a.Get(k))
    decreases |ks|
  {
    if ks != [] {
      var init, k := ks[..|ks| - 1], ks[|ks| - 1];
      StatsMembers(a, init);
      assert ks == init + [k];
      forall x ensures x in Stats(a, ks) <==> exists j :: j in ks && a.Get(j) > 0 && x == Stat(j, a.Get(j)) {
        if x in Stats(a, ks) && x !in Stats(a, init) {
          assert k in ks && x == Stat(k, a.Get(k));
        }
        if exists j :: j in ks && a.Get(j) > 0 && x == Stat(j, a.Get(j)) {
          var j :| j in ks && a.Get(j) > 0 && x == Stat(j, a.Get(j));
          if j != k { assert j in init; }
        }
      }
    }
  }

  /** No entry is written exactly when every field of `ks` is zero. */
  lemma {:induction false} StatsEmptyIffZero(a: AbilityScores, ks: seq<Ability>)
    ensures Stats(a, ks) == [] <==> forall k :: k in ks ==> a.Get(k) == 0
  {
    StatsMembers(a, ks);
    if Stats(a, ks) != [] {
      assert Stats(a, ks)[0] in Stats(a, ks);
    } else {
      forall k | k in ks ensures a.Get(k) == 0 {
        assert a.Get(k) > 0 ==> Stat(k, a.Get(k)) in Stats(a, ks);
      }
    }
  }

  /** Encoding yields the empty string exactly for the all-zero record. */
  lemma EncodeEmptyIffZero(a: AbilityScores)
    ensures Encode(a) == "" <==> a == Zero
  {
    StatsEmptyIffZero(a, Order);
    StatsAreEntries(a, Order);
    if forall k :: k in Order ==> a.Get(k) == 0 {
      forall k ensures a.Get(k) == Zero.Get(k) { OrderListsEveryAbility(k); }
      ScoresExtensional(a, Zero);
    }
  }

  /**
   * A non-zero record is written as its entries separated by single `;`: splitting
   * gives the entries back, none of them empty, with no `;` at either end.
   */
  lemma EncodeEntries(a: AbilityScores)
    requires a != Zero
    ensures Split(Encode(a), ';') == Stats(a, Order)
    ensures forall i :: 0 <= i < |Stats(a, Order)| ==> Stats(a, Order)[i] != ""
    ensures Encode(a) != "" && Encode(a)[0] != ';' && Encode(a)[|Encode(a)| - 1] != ';'
  {
    var es := Stats(a, Order);
    EncodeEmptyIffZero(a);
    StatsAreEntries(a, Order);
    assert es != [];
    SplitJoin(es, ';');
    JoinStartsWithFirst(es, ';');
    JoinEndsWithLast(es, ';');
    var first, last := es[0], es[|es| - 1];
    assert Encode(a)[0] == first[0];
    assert Encode(a)[|Encode(a)| - 1] == last[|last| - 1];
  }

  /** The map collected from the written entries binds exactly the non-zero fields of `ks`, to their values. */
  lemma {:induction false} CollectStats(a: AbilityScores, ks: seq<Ability>)
    ensures forall k :: Abbr(k) in Collect(ParseEntries(Stats(a, ks))) <==> k in ks && a.Get(k) > 0
    ensures forall k :: Abbr(k) in Collect(ParseEntries(Stats(a, ks))) ==>
      Collect(ParseEntries(Stats(a, ks)))[Abbr(k)] == Ok(a.Get(k))
    decreases |ks|
  {
    if ks != [] {
      var init, k := ks[..|ks| - 1], ks[|ks| - 1];
      CollectStats(a, init);
      assert ks == init + [k];
      DistinctAbbrs();
      if a.Get(k) > 0 {
        var stat := Stat(k, a.Get(k));
        ParseEntriesAppend(Stats(a, init), [stat]);
        assert ParseEntries([stat]) == [ParseEntry(stat)];
        ParseWrittenStat(k, a.Get(k));
        CollectSnoc(ParseEntries(Stats(a, init)), Entry(Abbr(k), Ok(a.Get(k))));
      } else {
        assert Stats(a, ks) == Stats(a, init) + [];
        assert Stats(a, init) + [] == Stats(a, init);
      }
    }
  }

  /** Decoding the empty string gives the all-zero record: its one entry `""` is not a key. */
  lemma DecodeEmpty()
    ensures Decode("") == Ok(Zero)
  {
    assert Split("", ';') == [""];
    assert ParseEntries([""]) == [Entry("", Err(MissingValue))];
    assert Collect([Entry("", Err(MissingValue))]) == map["" := Err(MissingValue)];
  }

  /** Looking any field up in the map collected from the written entries gives that field's value. */
  lemma LookupStats(a: AbilityScores)
    ensures forall k :: Lookup(Collect(ParseEntries(Stats(a, Order))), k) == Ok(a.Get(k))
  {
    var m := Collect(ParseEntries(Stats(a, Order)));
    CollectStats(a, Order);
    forall k ensures Lookup(m, k) == Ok(a.Get(k)) {
      OrderListsEveryAbility(k);
      assert Abbr(k) in m <==> a.Get(k) > 0;
    }
  }

  /** Every record survives encoding followed by decoding. */
  lemma RoundTrip(a: AbilityScores)
    ensures Decode(Encode(a)) == Ok(a)
  {
    EncodeEmptyIffZero(a);
    if a == Zero {
      DecodeEmpty();
    } else {
      var es := Stats(a, Order);
      StatsAreEntries(a, Order);
      DecodeJoin(es);
      LookupStats(a);
      ResolveToRecord(Collect(ParseEntries(es)), a);
    }
  }

  // The token edge cases

  /** A token of one entry under an unknown name decodes as all-zero, however malformed the entry. */
  lemma DecodeUnknownEntry(e: string)
    requires ';' !in e && !IsAbbr(ParseEntry(e).name)
    ensures Decode(e) == Ok(Zero)
  {
    SplitWithoutSep(e, ';');
    UnknownEntryIgnored([], e, []);
    assert [] + [e] + [] == [e];
    assert DecodeEntries([]) == Resolve(map[]);
  }

  /** A known key without a `+value` segment is an error. */
  lemma DecodeKeyWithoutValue(k: Ability)
    ensures Decode(Abbr(k)) == Err(MissingValue)
  {
    SplitWithoutSep(Abbr(k), ';');
    SplitWithoutSep(Abbr(k), '+');
    assert ParseEntries([Abbr(k)]) == [Entry(Abbr(k), Err(MissingValue))];
    assert Collect([Entry(Abbr(k), Err(MissingValue))]) == map[Abbr(k) := Err(MissingValue)];
    ResolveSpec(map[Abbr(k) := Err(MissingValue)]);
  }

  /** A known key whose value is not a `u8` is an error. */
  lemma DecodeKeyWithBadValue(k: Ability, v: string)
    requires ';' !in v && '+' !in v
    requires ParseValue(v).Err?
    ensures Decode(Abbr(k) + "+" + v) == Err(InvalidNumber)
  {
    var e := Abbr(k) + "+" + v;
    assert ';' !in e;
    SplitWithoutSep(e, ';');
    ParseStat(Abbr(k), v);
    assert ParseEntries([e]) == [Entry(Abbr(k), Err(InvalidNumber))];
    assert Collect([Entry(Abbr(k), Err(InvalidNumber))]) == map[Abbr(k) := Err(InvalidNumber)];
    ResolveSpec(map[Abbr(k) := Err(InvalidNumber)]);
  }

  /** `"str"` lacks its value; `"str+x"` and `"str+"` have one that is not a number. */
  lemma MalformedKnownTokens()
    ensures Decode("str") == Err(MissingValue)
    ensures Decode("str+x") == Err(InvalidNumber)
    ensures Decode("str+") == Err(InvalidNumber)
  {
    DecodeKeyWithoutValue(Str);
    assert "str+x" == Abbr(Str) + "+" + "x";
    assert ParseValue("x").Err?;
    DecodeKeyWithBadValue(Str, "x");
    assert "str+" == Abbr(Str) + "+" + "";
    DecodeKeyWithBadValue(Str, "");
  }

  /** `"str+256"` has a value that does not fit a `u8`. */
  lemma OutOfRangeToken()
    ensures Decode("str+256") == Err(InvalidNumber)
  {
    assert DigitsValue("256") == 256 by {
      assert "256"[..2] == "25" && "25"[..1] == "2" && "2"[..0] == "";
    }
    assert "str+256" == Abbr(Str) + "+" + "256";
    DecodeKeyWithBadValue(Str, "256");
  }

  /** The same malformations under an unknown name are not errors. */
  lemma MalformedUnknownTokens()
    ensures Decode("foo") == Ok(Zero)
    ensures Decode("foo+x") == Ok(Zero)
  {
    SplitWithoutSep("foo", '+');
    DecodeUnknownEntry("foo");
    assert "foo+x" == "foo" + "+" + "x";
    ParseStat("foo", "x");
    DecodeUnknownEntry("foo+x");
  }

  /** A later entry for a field overrides whatever the token said about that field before. */
  lemma LaterEntryOverrides(s: string, k: Ability, v: Score)
    requires Decode(s).Ok?
    ensures Decode(s + ";" + Stat(k, v)) == Ok(Decode(s).value.With(k, v))
  {
    var stat := Stat(k, v);
    StatShape(k, v);
    ParseWrittenStat(k, v);
    assert s + ";" + stat == s + [';'] + stat;
    SplitAtSep(s, stat, ';');
    SplitWithoutSep(stat, ';');
    var es := Split(s, ';');
    var ps := ParseEntries(es);
    ParseEntriesAppend(es, [stat]);
    assert ParseEntries([stat]) == [Entry(Abbr(k), Ok(v))];
    CollectSnoc(ps, Entry(Abbr(k), Ok(v)));
    var m, a := Collect(ps), Decode(s).value;
    var m' := m[Abbr(k) := Ok(v)];
    assert Decode(s + ";" + stat) == Resolve(m');
    ResolveSpec(m);
    forall j ensures Lookup(m', j) == Ok(a.With(k, v).Get(j)) {
      if j != k {
        DistinctAbbrs();
        assert Lookup(m', j) == Lookup(m, j);
      }
    }
    ResolveToRecord(m', a.With(k, v));
  }

  /** A token of one written entry decodes to the record holding just that field. */
  lemma DecodeSingleStat(k: Ability, v: Score)
    ensures Decode(Stat(k, v)) == Ok(Zero.With(k, v))
  {
    var stat := Stat(k, v);
    StatShape(k, v);
    ParseWrittenStat(k, v);
    SplitWithoutSep(stat, ';');
    assert ParseEntries([stat]) == [Entry(Abbr(k), Ok(v))];
    CollectSnoc([], Entry(Abbr(k), Ok(v)));
    assert [] + [Entry(Abbr(k), Ok(v))] == [Entry(Abbr(k), Ok(v))];
    DistinctAbbrs();
    ResolveToRecord(map[Abbr(k) := Ok(v)], Zero.With(k, v));
  }

  /** For a repeated key the last entry wins. */
  lemma RepeatedKeyLastWins(k: Ability, v1: Score, v2: Score)
    ensures Decode(Stat(k, v1) + ";" + Stat(k, v2)) == Ok(Zero.With(k, v2))
  {
    DecodeSingleStat(k, v1);
    LaterEntryOverrides(Stat(k, v1), k, v2);
    ScoresExtensional(Zero.With(k, v1).With(k, v2), Zero.With(k, v2));
  }

  /** Segments after the second `+` do not change what a one-entry token decodes to. */
  lemma DecodeIgnoresExtraSegments(name: string, v: string, rest: string)
    requires '+' !in name && '+' !in v
    requires ';' !in name && ';' !in v && ';' !in rest
    ensures Decode(name + "+" + v + "+" + rest) == Decode(name + "+" + v)
  {
    var long, short := name + "+" + v + "+" + rest, name + "+" + v;
    assert ';' !in long && ';' !in short by {
      assert forall i :: 0 <= i < |long| ==> long[i] == ';' ==> false by {
        assert long == name + ['+'] + v + ['+'] + rest;
      }
    }
    SplitWithoutSep(long, ';');
    SplitWithoutSep(short, ';');
    ExtraSegmentsIgnored(name, v, rest);
    assert ParseEntries([long]) == ParseEntries([short]);
  }

  /** A repeated key: the later entry decides the field. */
  lemma RepeatedKeyToken()
    ensures Decode("str+1;str+2") == Ok(AbilityScores(2, 0, 0, 0, 0, 0))
  {
    assert Stat(Str, 1) + ";" + Stat(Str, 2) == "str+1;str+2";
    RepeatedKeyLastWins(Str, 1, 2);
    ScoresExtensional(Zero.With(Str, 2), AbilityScores(2, 0, 0, 0, 0, 0));
  }

  /** A third `+` segment is dropped. */
  lemma ExtraSegmentToken()
    ensures Decode("str+1+9") == Ok(AbilityScores(1, 0, 0, 0, 0, 0))
  {
    assert "str+1+9" == "str" + "+" + "1" + "+" + "9";
    DecodeIgnoresExtraSegments("str", "1", "9");
    assert "str" + "+" + "1" == Stat(Str, 1);
    DecodeSingleStat(Str, 1);
    ScoresExtensional(Zero.With(Str, 1), AbilityScores(1, 0, 0, 0, 0, 0));
  }

  /** Two written fields with different keys decode to the same record in either order. */
  lemma TwoStatsCommute(k1: Ability, v1: Score, k2: Ability, v2: Score)
    requires k1 != k2
    ensures Decode(Stat(k1, v1) + ";" + Stat(k2, v2)) == Decode(Stat(k2, v2) + ";" + Stat(k1, v1))
    ensures Decode(Stat(k1, v1) + ";" + Stat(k2, v2)) == Ok(Zero.With(k1, v1).With(k2, v2))
  {
    var s1, s2 := Stat(k1, v1), Stat(k2, v2);
    StatShape(k1, v1);
    ParseWrittenStat(k1, v1);
    StatShape(k2, v2);
    ParseWrittenStat(k2, v2);
    DistinctAbbrs();
    assert Join([] + [s1, s2] + [], ';') == s1 + ";" + s2 by {
      assert [] + [s1, s2] + [] == [s1, s2];
    }
    assert Join([] + [s2, s1] + [], ';') == s2 + ";" + s1 by {
      assert [] + [s2, s1] + [] == [s2, s1];
    }
    DecodeReorder([], s1, s2, []);
    DecodeSingleStat(k1, v1);
    LaterEntryOverrides(s1, k2, v2);
  }

  /** Entry order does not matter between different keys. */
  lemma ReorderedToken()
    ensures Decode("dex+1;str+2") == Decode("str+2;dex+1") == Ok(AbilityScores(2, 1, 0, 0, 0, 0))
  {
    assert Stat(Dex, 1) + ";" + Stat(Str, 2) == "dex+1;str+2";
    assert Stat(Str, 2) + ";" + Stat(Dex, 1) == "str+2;dex+1";
    TwoStatsCommute(Dex, 1, Str, 2);
    ScoresExtensional(Zero.With(Dex, 1).With(Str, 2), AbilityScores(2, 1, 0, 0, 0, 0));
  }
}
