/** The player record and the fixed, ordered catalog of players the game
    draws its mystery player from and offers as guesses. */
module Players {

  /** One row of the catalog; `name` identifies the player. */
  datatype Player = Player(
    name: string,
    position: string,
    age: int,
    team: string,
    allStar: int,
    worldSeries: int)

  /** The ten players, in the order the search dropdown lists them. */
  const Catalog: seq<Player> := [
    Player("Mike Trout", "Outfielder", 32, "Angels", 10, 0),
    Player("Aaron Judge", "Outfielder", 32, "Yankees", 5, 0),
    Player("Shohei Ohtani", "Pitcher/DH", 29, "Dodgers", 3, 0),
    Player("Mookie Betts", "Outfielder", 31, "Dodgers", 6, 2),
    Player("Juan Soto", "Outfielder", 25, "Yankees", 3, 1),
    Player("Freddie Freeman", "First Base", 34, "Dodgers", 7, 1),
    Player("Francisco Lindor", "Shortstop", 30, "Mets", 4, 0),
    Player("Bryce Harper", "Outfielder", 31, "Phillies", 7, 0),
    Player("Ronald Acu\U{F1}a Jr.", "Outfielder", 26, "Braves", 4, 1),
    Player("Gerrit Cole", "Pitcher", 33, "Yankees", 6, 0)
  ]

  /** No two entries of `players` carry the same name. */
  predicate DistinctNames(players: seq<Player>) {
    forall i, j :: 0 <= i < j < |players| ==> players[i].name != players[j].name
  }

  /** `players.some(p => p.name === name)`. */
  predicate Guessed(players: seq<Player>, name: string) {
    exists k :: 0 <= k < |players| && players[k].name == name
  }

  /** A name is guessed exactly when some guess, wherever it stands, carries
      it; one more guess adds exactly its own name. */
  lemma GuessedMember(players: seq<Player>, name: string, q: Player)
    ensures Guessed(players, name) <==> exists p :: p in players && p.name == name
    ensures Guessed(players + [q], name) <==> Guessed(players, name) || q.name == name
  {
    if q.name == name {
      assert (players + [q])[|players|] == q;
    }
    if Guessed(players + [q], name) && !Guessed(players, name) {
      var k :| 0 <= k < |players| + 1 && (players + [q])[k].name == name;
      assert k == |players|;
    }
    if Guessed(players, name) {
      var k :| 0 <= k < |players| && players[k].name == name;
      assert (players + [q])[k] == players[k];
    }
  }

  /** The catalog's names, entry by entry. */
  lemma CatalogNames()
    ensures |Catalog| == 10
    ensures Catalog[0].name == "Mike Trout"
    ensures Catalog[1].name == "Aaron Judge"
    ensures Catalog[2].name == "Shohei Ohtani"
    ensures Catalog[3].name == "Mookie Betts"
    ensures Catalog[4].name == "Juan Soto"
    ensures Catalog[5].name == "Freddie Freeman"
    ensures Catalog[6].name == "Francisco Lindor"
    ensures Catalog[7].name == "Bryce Harper"
    ensures Catalog[8].name == "Ronald Acu\U{F1}a Jr."
    ensures Catalog[9].name == "Gerrit Cole"
  {
  }

  /** No two catalog entries share a name. */
  lemma CatalogDistinct()
    ensures DistinctNames(Catalog)
  {
  }

  /** Within the catalog a name determines the whole record. */
  lemma CatalogNameDetermines(p: Player, q: Player)
    requires p in Catalog && q in Catalog && p.name == q.name
    ensures p == q
  {
    CatalogDistinct();
  }

  /** A name fits on one line of text. */
  predicate SingleLine(p: Player) {
    '\n' !in p.name
  }

  /** No catalog name spans more than one line. */
  lemma CatalogSingleLine()
    ensures forall k :: 0 <= k < |Catalog| ==> SingleLine(Catalog[k])
  {
    SingleLineBetween0And4();
    SingleLineBetween4And7();
    SingleLineBetween7And10();
  }

  lemma SingleLineBetween0And4()
    ensures forall k :: 0 <= k < 4 ==> SingleLine(Catalog[k])
  {
  }

  lemma SingleLineBetween4And7()
    ensures forall k :: 4 <= k < 7 ==> SingleLine(Catalog[k])
  {
  }

  lemma SingleLineBetween7And10()
    ensures forall k :: 7 <= k < 10 ==> SingleLine(Catalog[k])
  {
  }

  /** Appending a player whose name is new keeps the names distinct, and the
      new name is then guessed. */
  lemma AppendFresh(players: seq<Player>, p: Player)
    requires DistinctNames(players) && !Guessed(players, p.name)
    ensures DistinctNames(players + [p])
    ensures Guessed(players + [p], p.name)
  {
    assert (players + [p])[|players|] == p;
  }
}
