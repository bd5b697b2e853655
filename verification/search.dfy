/** The suggestion list shown under the search box: the catalog players
    whose name contains the typed term, ignoring case, minus the players
    already guessed. */
module Search {
  import opened Text
  import opened Players

  /** `r` is `s` with some entries dropped and the rest kept in order. */
  ghost predicate SubsequenceOf<T>(r: seq<T>, s: seq<T>)
    decreases |s|
  {
    if |r| == 0 then true
    else if |s| == 0 then false
    else (r[0] == s[0] && SubsequenceOf(r[1..], s[1..])) || SubsequenceOf(r, s[1..])
  }

  /** A player is suggested for `term` when its lower-cased name includes
      the lower-cased term and no guess carries its name. */
  predicate Suggested(p: Player, term: string, guesses: seq<Player>)
    ensures Suggested(p, term, guesses) ==> |term| <= |p.name| && !Guessed(guesses, p.name)
    ensures |term| == 0 ==> (Suggested(p, term, guesses) <==> !Guessed(guesses, p.name))
  {
    Includes(Lower(p.name), Lower(term)) && !Guessed(guesses, p.name)
  }

  /** The order-preserving filter over `players`. */
  function Keep(players: seq<Player>, term: string, guesses: seq<Player>): (r: seq<Player>)
    ensures SubsequenceOf(r, players)
    ensures forall p :: p in r <==> p in players && Suggested(p, term, guesses)
    ensures forall p :: multiset(r)[p] == if Suggested(p, term, guesses) then multiset(players)[p] else 0
  {
    if |players| == 0 then []
    else
      var rest := Keep(players[1..], term, guesses);
      assert players == [players[0]] + players[1..];
      if Suggested(players[0], term, guesses) then
        assert ([players[0]] + rest)[1..] == rest;
        [players[0]] + rest
      else
        rest
  }

  /** The list `handleSearchChange` stores for the typed `term`: nothing
      while the box is empty, otherwise the suggested catalog players in
      catalog order. */
  function Suggestions(catalog: seq<Player>, term: string, guesses: seq<Player>): (r: seq<Player>)
    ensures |term| == 0 ==> r == []
    ensures SubsequenceOf(r, catalog)
    ensures forall p :: p in r <==> |term| > 0 && p in catalog && Suggested(p, term, guesses)
    ensures |term| > 0 ==>
      forall p :: multiset(r)[p] == if Suggested(p, term, guesses) then multiset(catalog)[p] else 0
  {
    if |term| > 0 then Keep(catalog, term, guesses) else []
  }

  /** A subsequence of a list with distinct names has distinct names. */
  lemma {:induction false} SubsequenceDistinct(r: seq<Player>, s: seq<Player>)
    requires SubsequenceOf(r, s) && DistinctNames(s)
    ensures DistinctNames(r)
    decreases |s|
  {
    if |r| > 0 {
      if r[0] == s[0] && SubsequenceOf(r[1..], s[1..]) {
        SubsequenceDistinct(r[1..], s[1..]);
        SubsequenceMembers(r[1..], s[1..]);
        forall j | 0 < j < |r| ensures r[0].name != r[j].name {
          assert r[j] == r[1..][j - 1];
          var k :| 0 <= k < |s[1..]| && s[1..][k] == r[j];
          assert s[k + 1] == r[j];
        }
      } else {
        SubsequenceDistinct(r, s[1..]);
      }
    }
  }

  /** Every entry of a subsequence is an entry of the whole. */
  lemma {:induction false} SubsequenceMembers<T>(r: seq<T>, s: seq<T>)
    requires SubsequenceOf(r, s)
    ensures forall j :: 0 <= j < |r| ==> exists k :: 0 <= k < |s| && s[k] == r[j]
    decreases |s|
  {
    if |r| > 0 {
      if r[0] == s[0] && SubsequenceOf(r[1..], s[1..]) {
        SubsequenceMembers(r[1..], s[1..]);
        forall j | 0 <= j < |r| ensures exists k :: 0 <= k < |s| && s[k] == r[j] {
          if j == 0 {
            assert s[0] == r[0];
          } else {
            assert r[j] == r[1..][j - 1];
            var k :| 0 <= k < |s[1..]| && s[1..][k] == r[j];
            assert s[k + 1] == r[j];
          }
        }
      } else {
        SubsequenceMembers(r, s[1..]);
        forall j | 0 <= j < |r| ensures exists k :: 0 <= k < |s| && s[k] == r[j] {
          var k :| 0 <= k < |s[1..]| && s[1..][k] == r[j];
          assert s[k + 1] == r[j];
        }
      }
    }
  }

  /** The dropdown lists each name at most once, as its `key` attribute
      needs. */
  lemma SuggestionsDistinct(term: string, guesses: seq<Player>)
    ensures DistinctNames(Suggestions(Catalog, term, guesses))
  {
    CatalogDistinct();
    SubsequenceDistinct(Suggestions(Catalog, term, guesses), Catalog);
  }

  /** Typing a term in any mix of upper and lower case suggests the same
      players. */
  lemma CaseInsensitive(catalog: seq<Player>, term: string, guesses: seq<Player>)
    ensures Suggestions(catalog, Lower(term), guesses) == Suggestions(catalog, term, guesses)
  {
    LowerIdempotent(term);
    KeepCaseInsensitive(catalog, term, guesses);
  }

  lemma {:induction false} KeepCaseInsensitive(players: seq<Player>, term: string, guesses: seq<Player>)
    ensures Keep(players, Lower(term), guesses) == Keep(players, term, guesses)
  {
    LowerIdempotent(term);
    if |players| > 0 {
      KeepCaseInsensitive(players[1..], term, guesses);
    }
  }

  /** Every suggestion can be guessed without repeating a name. */
  lemma SuggestionsFresh(catalog: seq<Player>, term: string, guesses: seq<Player>, k: int)
    requires 0 <= k < |Suggestions(catalog, term, guesses)|
    ensures Suggestions(catalog, term, guesses)[k] in catalog
    ensures !Guessed(guesses, Suggestions(catalog, term, guesses)[k].name)
  {
    var r := Suggestions(catalog, term, guesses);
    assert r[k] in r;
  }

  /** A list filtered against some guesses is a sub-list of the one filtered
      against none: guesses only ever take entries away. */
  lemma {:induction false} KeepFewerGuesses(players: seq<Player>, term: string, guesses: seq<Player>)
    ensures SubsequenceOf(Keep(players, term, guesses), Keep(players, term, []))
    decreases |players|
  {
    if |players| > 0 {
      var rest := Keep(players[1..], term, guesses);
      var none := Keep(players[1..], term, []);
      KeepFewerGuesses(players[1..], term, guesses);
      if Suggested(players[0], term, []) {
        assert Keep(players, term, []) == [players[0]] + none;
        assert ([players[0]] + none)[1..] == none;
        if Suggested(players[0], term, guesses) {
          assert Keep(players, term, guesses) == [players[0]] + rest;
          assert ([players[0]] + rest)[1..] == rest;
        } else {
          assert Keep(players, term, guesses) == rest;
          SubsequenceOfCons(rest, players[0], none);
        }
      } else {
        assert !Suggested(players[0], term, guesses);
      }
    }
  }

  /** Putting an entry in front keeps a subsequence one. */
  lemma SubsequenceOfCons<T>(r: seq<T>, x: T, s: seq<T>)
    requires SubsequenceOf(r, s)
    ensures SubsequenceOf(r, [x] + s)
  {
    assert ([x] + s)[1..] == s;
  }

  /** With Mike Trout and Aaron Judge on offer and nothing guessed yet,
      typing "tr" suggests Mike Trout alone. */
  lemma TypingTr(trout: Player, judge: Player)
    requires trout == Player("Mike Trout", "Outfielder", 32, "Angels", 10, 0)
    requires judge == Player("Aaron Judge", "Outfielder", 32, "Yankees", 5, 0)
    ensures Suggestions([trout, judge], "tr", []) == [trout]
  {
    TroutMatchesTr();
    JudgeMissesTr();
    KeepFirstOfTwo(trout, judge, "tr", []);
  }

  lemma KeepFirstOfTwo(a: Player, b: Player, term: string, guesses: seq<Player>)
    requires |term| > 0 && Suggested(a, term, guesses) && !Suggested(b, term, guesses)
    ensures Suggestions([a, b], term, guesses) == [a]
  {
    assert [a, b][1..] == [b];
    assert [b][1..] == [];
    assert Keep([b], term, guesses) == [];
  }

  lemma TroutMatchesTr()
    ensures Includes(Lower("Mike Trout"), Lower("tr"))
  {
    assert Lower("tr") == "tr";
    assert Lower("Mike Trout") == "mike trout";
    assert OccursAt("mike trout", "tr", 5);
  }

  lemma JudgeMissesTr()
    ensures !Includes(Lower("Aaron Judge"), Lower("tr"))
  {
    assert Lower("tr") == "tr";
    assert Lower("Aaron Judge") == "aaron judge";
    IncludesPair("aaron judge", "tr");
  }
}
