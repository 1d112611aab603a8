/**
 * The key-value store behind the service, as the service sees it through
 * its repository interface: users and games share one key space, a user is
 * kept under its username and a game (with its board) under its name.
 * Writes may fail; which ones fail is not under the service's control.
 */
module Store {
  import opened Results
  import opened Domain

  datatype Entry = UserEntry(user: User) | GameEntry(game: Game)

  /** Why the store could not hand out a game, or could not write. */
  datatype StoreError =
    | GameMissing   // no value under the key
    | Unreadable    // the key holds something that does not decode as a game with a board
    | WriteFailed   // the write was refused

  /**
   * GetGame: a missing key is an error, and so is a key that holds a user,
   * since no board is stored beside a user.
   */
  function LookupGame(entries: map<string, Entry>, key: string): (r: Result<Game, StoreError>)
    ensures r.Ok? <==> key in entries && entries[key].GameEntry?
    ensures r.Ok? ==> entries[key] == GameEntry(r.value)
    ensures r == Err(GameMissing) <==> key !in entries
  {
    if key !in entries then Err(GameMissing)
    else match entries[key]
      case GameEntry(g) => Ok(g)
      case UserEntry(_) => Err(Unreadable)
  }

  /**
   * What the service keeps true of the store: every entry sits under its
   * own key, and every game is well formed.
   */
  predicate Consistent(entries: map<string, Entry>) {
    forall k :: k in entries ==>
      match entries[k]
      case UserEntry(u) => u.username == k
      case GameEntry(g) => g.name == k && WellFormed(g)
  }

  /** A game read back from a consistent store is well formed and carries the key as its name. */
  lemma LookupConsistent(entries: map<string, Entry>, key: string)
    requires Consistent(entries) && LookupGame(entries, key).Ok?
    ensures WellFormed(LookupGame(entries, key).value) && LookupGame(entries, key).value.name == key
  {
    assert entries[key].GameEntry?;
  }

  /** Saving a well-formed game under its name, or a user under its username, keeps the store consistent. */
  lemma SaveKeepsConsistent(entries: map<string, Entry>, e: Entry)
    requires Consistent(entries)
    requires e.GameEntry? ==> WellFormed(e.game)
    ensures var k := if e.GameEntry? then e.game.name else e.user.username;
      Consistent(entries[k := e])
  {
  }

  /** The repository: a mutable map from keys to entries. */
  class Repo {
    var entries: map<string, Entry>

    constructor ()
      ensures entries == map[]
    {
      entries := map[];
    }

    /** Exists: whether any value is stored under the key. */
    method Exists(key: string) returns (b: bool)
      ensures b <==> key in entries
    {
      b := key in entries;
    }

    method GetGame(key: string) returns (r: Result<Game, StoreError>)
      ensures r == LookupGame(entries, key)
    {
      r := LookupGame(entries, key);
    }

    /** SaveGame: the game replaces whatever was stored under its name, unless the write fails. */
    method SaveGame(g: Game) returns (ok: bool)
      modifies this
      ensures entries == if ok then old(entries)[g.name := GameEntry(g)] else old(entries)
    {
      if * {
        entries := entries[g.name := GameEntry(g)];
        ok := true;
      } else {
        ok := false;
      }
    }

    /** SaveUser: the user replaces whatever was stored under its username, unless the write fails. */
    method SaveUser(u: User) returns (ok: bool)
      modifies this
      ensures entries == if ok then old(entries)[u.username := UserEntry(u)] else old(entries)
    {
      if * {
        entries := entries[u.username := UserEntry(u)];
        ok := true;
      } else {
        ok := false;
      }
    }
  }
}
