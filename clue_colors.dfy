/** The clue colours a variant gets when its descriptor lists none: both
    compilers walk the suits, skip every suit touched by all colours, and
    append each colour of the other suits that is not there yet. Suits are
    seen through two accessors, so the TypeScript and the Go suit records
    share this one definition. */
module ClueColors {
  import opened Seqs

  /** The colours of the suits not touched by every colour, repeats included,
      in the order the suits bring them. */
  function Eligible<S, C>(suits: seq<S>, touchedByAll: S -> bool, colorsOf: S -> seq<C>): seq<C>
    decreases |suits|
  {
    if suits == [] then []
    else
      var suit := suits[|suits| - 1];
      Eligible(suits[..|suits| - 1], touchedByAll, colorsOf) + (if touchedByAll(suit) then [] else colorsOf(suit))
  }

  /** The derived clue colours, built suit by suit as the loops do. */
  function Derive<S, C(==,!new)>(suits: seq<S>, touchedByAll: S -> bool, colorsOf: S -> seq<C>): seq<C>
    decreases |suits|
  {
    if suits == [] then []
    else
      var derived := Derive(suits[..|suits| - 1], touchedByAll, colorsOf);
      var suit := suits[|suits| - 1];
      if touchedByAll(suit) then derived else AppendNew(derived, colorsOf(suit))
  }

  lemma {:induction false} DeriveIsDedup<S, C(!new)>(suits: seq<S>, touchedByAll: S -> bool, colorsOf: S -> seq<C>)
    ensures Derive(suits, touchedByAll, colorsOf) == Dedup(Eligible(suits, touchedByAll, colorsOf))
    decreases |suits|
  {
    if suits != [] {
      var init := suits[..|suits| - 1];
      var suit := suits[|suits| - 1];
      DeriveIsDedup(init, touchedByAll, colorsOf);
      if !touchedByAll(suit) {
        AppendNewConcat([], Eligible(init, touchedByAll, colorsOf), colorsOf(suit));
      } else {
        assert Eligible(suits, touchedByAll, colorsOf) == Eligible(init, touchedByAll, colorsOf);
      }
    }
  }

  lemma {:induction false} EligibleMembers<S, C>(suits: seq<S>, touchedByAll: S -> bool, colorsOf: S -> seq<C>, c: C)
    ensures c in Eligible(suits, touchedByAll, colorsOf) <==>
      exists i :: 0 <= i < |suits| && !touchedByAll(suits[i]) && c in colorsOf(suits[i])
    decreases |suits|
  {
    if suits != [] {
      var init, last := suits[..|suits| - 1], suits[|suits| - 1];
      var extra := if touchedByAll(last) then [] else colorsOf(last);
      assert Eligible(suits, touchedByAll, colorsOf) == Eligible(init, touchedByAll, colorsOf) + extra;
      EligibleMembers(init, touchedByAll, colorsOf, c);
      if c in Eligible(init, touchedByAll, colorsOf) {
        var i :| 0 <= i < |init| && !touchedByAll(init[i]) && c in colorsOf(init[i]);
        assert suits[i] == init[i];
      } else if c in extra {
        assert suits[|init|] == last;
      }
      if exists i :: 0 <= i < |suits| && !touchedByAll(suits[i]) && c in colorsOf(suits[i]) {
        var i :| 0 <= i < |suits| && !touchedByAll(suits[i]) && c in colorsOf(suits[i]);
        if i < |init| {
          assert init[i] == suits[i];
        } else {
          assert suits[i] == last;
        }
      }
    }
  }

  /** The derived clue colours have no repeats, hold exactly the colours of
      the suits not touched by every colour, and keep the order in which
      those colours are first seen. */
  lemma Derived<S, C(!new)>(suits: seq<S>, touchedByAll: S -> bool, colorsOf: S -> seq<C>)
    ensures NoDuplicates(Derive(suits, touchedByAll, colorsOf))
    ensures forall c :: c in Derive(suits, touchedByAll, colorsOf) <==> c in Eligible(suits, touchedByAll, colorsOf)
    ensures forall c :: c in Derive(suits, touchedByAll, colorsOf) <==>
      exists i :: 0 <= i < |suits| && !touchedByAll(suits[i]) && c in colorsOf(suits[i])
    ensures forall i, j :: 0 <= i < j < |Derive(suits, touchedByAll, colorsOf)| ==>
      IndexOf(Eligible(suits, touchedByAll, colorsOf), Derive(suits, touchedByAll, colorsOf)[i])
        < IndexOf(Eligible(suits, touchedByAll, colorsOf), Derive(suits, touchedByAll, colorsOf)[j])
  {
    DeriveIsDedup(suits, touchedByAll, colorsOf);
    DedupSpec(Eligible(suits, touchedByAll, colorsOf));
    forall c ensures c in Derive(suits, touchedByAll, colorsOf) <==>
      exists i :: 0 <= i < |suits| && !touchedByAll(suits[i]) && c in colorsOf(suits[i])
    {
      EligibleMembers(suits, touchedByAll, colorsOf, c);
    }
  }

  /** The nested loop over the suits and their colours, skipping suits
      touched by every colour and appending each colour not yet present. */
  method DeriveLoop<S, C(==,!new)>(suits: seq<S>, touchedByAll: S -> bool, colorsOf: S -> seq<C>) returns (clueColors: seq<C>)
    ensures clueColors == Derive(suits, touchedByAll, colorsOf)
  {
    clueColors := [];
    for i := 0 to |suits|
      invariant clueColors == Derive(suits[..i], touchedByAll, colorsOf)
    {
      var suit := suits[i];
      assert suits[..i + 1][..i] == suits[..i];
      if touchedByAll(suit) {
        continue;
      }
      var colors := colorsOf(suit);
      for j := 0 to |colors|
        invariant clueColors == AppendNew(Derive(suits[..i], touchedByAll, colorsOf), colors[..j])
      {
        var color := colors[j];
        assert colors[..j + 1][..j] == colors[..j];
        if color !in clueColors {
          clueColors := clueColors + [color];
        }
      }
      assert colors[..|colors|] == colors;
    }
    assert suits[..|suits|] == suits;
  }
}
