/** The device-local favorites list (`utils/storage.ts`): a persisted list of at most ten saved
    excuses, newest first, with no excuse text saved twice. */
module FavoritesStorage {
  import opened Seqs
  import Decimal

  const MaxFavorites: nat := 10

  datatype Favorite = Favorite(id: string, excuse: string, situation: string, tone: string,
                               length: string, timestamp: nat)

  /** `{ success, limitReached? }`; an absent `limitReached` is `false`. */
  datatype SaveResult = SaveResult(success: bool, limitReached: bool)

  /** `favorites.some(fav => fav.excuse === excuse)`. */
  predicate HasExcuse(fs: seq<Favorite>, excuse: string) {
    fs != [] && (fs[0].excuse == excuse || HasExcuse(fs[1..], excuse))
  }

  /** `some` is true exactly when some entry carries that text. */
  lemma {:induction false} HasExcuseIff(fs: seq<Favorite>, excuse: string)
    ensures HasExcuse(fs, excuse) <==> exists i :: 0 <= i < |fs| && fs[i].excuse == excuse
  {
    if fs != [] {
      HasExcuseIff(fs[1..], excuse);
      if exists i :: 0 <= i < |fs| && fs[i].excuse == excuse {
        var i :| 0 <= i < |fs| && fs[i].excuse == excuse;
        if i > 0 { assert fs[1..][i - 1].excuse == excuse; }
      }
      if HasExcuse(fs[1..], excuse) {
        var i :| 0 <= i < |fs[1..]| && fs[1..][i].excuse == excuse;
        assert fs[i + 1].excuse == excuse;
      }
    }
  }

  /** No two entries share an excuse text. */
  ghost predicate DistinctTexts(fs: seq<Favorite>) {
    forall i, j :: 0 <= i < j < |fs| ==> fs[i].excuse != fs[j].excuse
  }

  /** The invariant the ledger keeps: at most `MaxFavorites` entries, texts distinct. */
  ghost predicate ValidList(fs: seq<Favorite>) {
    |fs| <= MaxFavorites && DistinctTexts(fs)
  }

  /** The entry `saveFavorite` creates: its id is the decimal text of one clock reading and its
      timestamp another (`Date.now()` is read twice). */
  function NewFavorite(excuse: string, situation: string, tone: string, length: string,
                       idClock: nat, stampClock: nat): (f: Favorite)
    ensures f.excuse == excuse && f.situation == situation && f.tone == tone && f.length == length
    ensures Decimal.AllDigits(f.id) && Decimal.Value(f.id) == idClock && f.timestamp == stampClock
  {
    Favorite(Decimal.FromNat(idClock), excuse, situation, tone, length, stampClock)
  }

  /** Prepending a text not yet present to a list below the cap keeps the invariant. */
  lemma PrependKeepsValid(fs: seq<Favorite>, f: Favorite)
    requires ValidList(fs) && |fs| < MaxFavorites && !HasExcuse(fs, f.excuse)
    ensures ValidList([f] + fs)
  {
    HasExcuseIff(fs, f.excuse);
    PrependDistinct(f, fs);
  }

  /** `favorites.filter(fav => fav.id !== id)`: no entry has that id afterwards, and every entry
      with another id is still there. */
  function WithoutId(fs: seq<Favorite>, id: string): (r: seq<Favorite>)
    ensures |r| <= |fs|
    ensures forall i :: 0 <= i < |r| ==> r[i].id != id && r[i] in fs
    ensures forall i :: 0 <= i < |fs| && fs[i].id != id ==> fs[i] in r
  {
    var keep := IdIsNot(id);
    var r := Filter(fs, keep);
    assert forall i :: 0 <= i < |r| ==> keep(r[i]);
    r
  }

  function IdIsNot(id: string): Favorite -> bool {
    (f: Favorite) => f.id != id
  }

  /** Removal commutes with concatenation, so what is kept stays in its old relative order. */
  lemma WithoutIdConcat(a: seq<Favorite>, b: seq<Favorite>, id: string)
    ensures WithoutId(a + b, id) == WithoutId(a, id) + WithoutId(b, id)
  {
    FilterConcat(a, b, IdIsNot(id));
  }

  /** Removing an id no entry has changes nothing. */
  lemma WithoutUnknownId(fs: seq<Favorite>, id: string)
    requires forall i :: 0 <= i < |fs| ==> fs[i].id != id
    ensures WithoutId(fs, id) == fs
  {
    FilterKeepsAll(fs, IdIsNot(id));
  }

  /** Removal keeps the invariant. */
  lemma {:induction false} WithoutIdKeepsValid(fs: seq<Favorite>, id: string)
    requires ValidList(fs)
    ensures ValidList(WithoutId(fs, id))
  {
    if fs != [] {
      var rest := WithoutId(fs[1..], id);
      WithoutIdKeepsValid(fs[1..], id);
      assert WithoutId(fs, id) == (if fs[0].id != id then [fs[0]] else []) + rest;
      if fs[0].id != id {
        forall k | 0 <= k < |rest| ensures rest[k].excuse != fs[0].excuse {
          var m :| 0 <= m < |fs[1..]| && fs[1..][m] == rest[k];
          assert fs[m + 1] == rest[k];
        }
        PrependDistinct(fs[0], rest);
      }
    }
  }

  /** An entry whose text no entry of a distinct list has keeps the texts distinct in front. */
  lemma PrependDistinct(f: Favorite, rest: seq<Favorite>)
    requires DistinctTexts(rest)
    requires forall k :: 0 <= k < |rest| ==> rest[k].excuse != f.excuse
    ensures DistinctTexts([f] + rest)
  {
    var r := [f] + rest;
    forall i, j | 0 <= i < j < |r| ensures r[i].excuse != r[j].excuse {
      assert r[j] == rest[j - 1];
      if i > 0 {
        assert r[i] == rest[i - 1];
      }
    }
  }

  /** The persisted favorites. The storage key's absence and a stored empty list read the same. */
  class FavoritesStore {
    var favorites: seq<Favorite>

    ghost predicate Valid()
      reads this
    {
      ValidList(favorites)
    }

    /** Nothing stored yet. */
    constructor ()
      ensures Valid() && favorites == []
    {
      favorites := [];
    }

    /** `getFavorites`. */
    method GetFavorites() returns (fs: seq<Favorite>)
      ensures fs == favorites
    {
      fs := favorites;
    }

    /** `getFavoritesCount`: the length of what `getFavorites` returns. */
    method GetFavoritesCount() returns (n: nat)
      ensures n == |favorites|
    {
      var fs := GetFavorites();
      n := |fs|;
    }

    /** `isFavorited`. */
    method IsFavorited(excuse: string) returns (b: bool)
      ensures b <==> exists i :: 0 <= i < |favorites| && favorites[i].excuse == excuse
    {
      var fs := GetFavorites();
      HasExcuseIff(fs, excuse);
      b := HasExcuse(fs, excuse);
    }

    /** `saveFavorite`. The duplicate check comes before the cap check, so saving a text already
        present succeeds without change even at the cap. `writeOk` is whether the storage write
        succeeds; a failed write reports `{ success: false }` and keeps the old list. */
    method SaveFavorite(excuse: string, situation: string, tone: string, length: string,
                        idClock: nat, stampClock: nat, writeOk: bool) returns (res: SaveResult)
      requires Valid()
      modifies this
      ensures Valid()
      ensures (exists i :: 0 <= i < |old(favorites)| && old(favorites)[i].excuse == excuse) ==>
                res == SaveResult(true, false) && favorites == old(favorites)
      ensures (forall i :: 0 <= i < |old(favorites)| ==> old(favorites)[i].excuse != excuse) &&
              |old(favorites)| >= MaxFavorites ==>
                res == SaveResult(false, true) && favorites == old(favorites)
      ensures (forall i :: 0 <= i < |old(favorites)| ==> old(favorites)[i].excuse != excuse) &&
              |old(favorites)| < MaxFavorites ==>
                res == SaveResult(writeOk, false) &&
                favorites == (if writeOk then [NewFavorite(excuse, situation, tone, length, idClock, stampClock)]
                                              + old(favorites)
                              else old(favorites))
    {
      var fs := GetFavorites();
      HasExcuseIff(fs, excuse);
      if HasExcuse(fs, excuse) {
        return SaveResult(true, false);
      }
      if |fs| >= MaxFavorites {
        return SaveResult(false, true);
      }
      var fav := NewFavorite(excuse, situation, tone, length, idClock, stampClock);
      if !writeOk {
        return SaveResult(false, false);
      }
      PrependKeepsValid(fs, fav);
      favorites := [fav] + fs;
      res := SaveResult(true, false);
    }

    /** `removeFavorite`: every entry with that id goes, the rest stay in order. A failed write
        returns `false` and keeps the old list. */
    method RemoveFavorite(id: string, writeOk: bool) returns (ok: bool)
      requires Valid()
      modifies this
      ensures Valid()
      ensures ok == writeOk
      ensures favorites == if writeOk then WithoutId(old(favorites), id) else old(favorites)
    {
      var fs := GetFavorites();
      var updated := WithoutId(fs, id);
      if !writeOk {
        return false;
      }
      WithoutIdKeepsValid(fs, id);
      favorites := updated;
      ok := true;
    }

    /** `clearAllFavorites`: the storage key is removed, so the list reads as empty. */
    method ClearAllFavorites(writeOk: bool) returns (ok: bool)
      requires Valid()
      modifies this
      ensures Valid()
      ensures ok == writeOk
      ensures favorites == if writeOk then [] else old(favorites)
    {
      if !writeOk {
        return false;
      }
      favorites := [];
      ok := true;
    }
  }

  /** After a successful clear, reading the list gives `[]` and the count is 0. */
  method ClearThenRead(store: FavoritesStore) returns (fs: seq<Favorite>, n: nat)
    requires store.Valid()
    modifies store
    ensures store.Valid()
    ensures fs == [] && n == 0
  {
    var ok := store.ClearAllFavorites(true);
    fs := store.GetFavorites();
    n := store.GetFavoritesCount();
  }
}
