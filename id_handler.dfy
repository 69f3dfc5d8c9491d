/** The id registry: a map from full title to movie id and the highest id
    handed out so far. New titles get the next id; known titles keep theirs. */
module IdRegistry {
  import opened Text

  /** The counter value `generate` starts from; every id handed out exceeds it. */
  const IdFloor: int := 10

  /** The one title `generate` registers. */
  const SampleTitle: string := "\"1st Amendment Stand Up\" (2005) {E. Griff/Ralphie May (#1.3)}"

  /** The registry's state: `movie_ids` and `movie_id_max`. */
  datatype Registry = Registry(ids: map<string, int>, max: int)

  /** Every id lies in `(IdFloor, max]`, no two titles share an id, and the
      counter has not left `[IdFloor, i32::MAX]`. */
  ghost predicate Inv(r: Registry) {
    IdFloor <= r.max <= I32Max &&
    (forall t :: t in r.ids ==> IdFloor < r.ids[t] <= r.max) &&
    (forall t1, t2 :: t1 in r.ids && t2 in r.ids && t1 != t2 ==> r.ids[t1] != r.ids[t2])
  }

  /** `new_movie_id`: map `key` to the next id and advance the counter. */
  function Mint(r: Registry, key: string): (Registry, int)
    requires r.max < I32Max
  {
    (Registry(r.ids[key := r.max + 1], r.max + 1), r.max + 1)
  }

  /** `generate`: an empty map, the counter at `IdFloor`, then the sample title. */
  function Generated(): (r: Registry)
    ensures r.ids == map[SampleTitle := IdFloor + 1] && r.max == IdFloor + 1
    ensures Inv(r)
  {
    Mint(Registry(map[], IdFloor), SampleTitle).0
  }

  /** `find_or_generate_movie_id`: the new registry and the id for `title`. */
  function Assign(r: Registry, title: string): (res: (Registry, int))
    requires title in r.ids || r.max < I32Max
    ensures r.max <= res.0.max <= r.max + 1
    ensures title in res.0.ids && res.0.ids[title] == res.1
  {
    if title in r.ids then (r, r.ids[title]) else Mint(r, title)
  }

  /** Minting keeps the invariant, even when `key` was already mapped: the
      new id exceeds every id in use and the key's old id is dropped. */
  lemma MintKeepsInv(r: Registry, key: string)
    requires Inv(r) && r.max < I32Max
    ensures Inv(Mint(r, key).0)
    ensures Mint(r, key).1 == r.max + 1 && Mint(r, key).1 !in r.ids.Values
  {
    var (r', id) := Mint(r, key);
    forall t1, t2 | t1 in r'.ids && t2 in r'.ids && t1 != t2 ensures r'.ids[t1] != r'.ids[t2] {
      if t1 != key && t2 != key {
        assert r'.ids[t1] == r.ids[t1] && r'.ids[t2] == r.ids[t2];
      }
    }
  }

  /** A known title gets its stored id and changes nothing; an unknown one
      gets the old counter plus one and adds exactly that entry. Either way
      the invariant holds afterwards and no stored entry changes. */
  lemma AssignSpec(r: Registry, title: string)
    requires Inv(r) && (title in r.ids || r.max < I32Max)
    ensures var (r', id) := Assign(r, title);
            Inv(r') &&
            (title in r.ids ==> r' == r && id == r.ids[title]) &&
            (title !in r.ids ==> id == r.max + 1 && r'.max == id && r'.ids == r.ids[title := id]) &&
            (forall t :: t in r.ids ==> t in r'.ids && r'.ids[t] == r.ids[t])
  {
    if title !in r.ids {
      MintKeepsInv(r, title);
    }
  }

  /** Asking twice for the same title gives the same id and no further change. */
  lemma AssignIdempotent(r: Registry, title: string)
    requires title in r.ids || r.max < I32Max
    ensures var (r', id) := Assign(r, title);
            Assign(r', title) == (r', id)
  {
  }

  /** Two different titles asked for one after the other get different ids. */
  lemma AssignDistinct(r: Registry, t1: string, t2: string)
    requires Inv(r) && t1 != t2 && r.max + 2 <= I32Max
    ensures var (r1, id1) := Assign(r, t1);
            var (r2, id2) := Assign(r1, t2);
            id1 != id2
  {
    var (r1, id1) := Assign(r, t1);
    AssignSpec(r, t1);
    AssignSpec(r1, t2);
  }

  /** A run of lookups, one per title, in order. */
  function AssignAll(r: Registry, titles: seq<string>): (res: (Registry, seq<int>))
    requires r.max + |titles| <= I32Max
    decreases |titles|
    ensures |res.1| == |titles|
    ensures r.max <= res.0.max <= r.max + |titles|
  {
    if titles == [] then (r, [])
    else
      var (r1, id) := Assign(r, titles[0]);
      var (rn, ids) := AssignAll(r1, titles[1..]);
      (rn, [id] + ids)
  }

  /** After a run, the registry maps every title of the run to the id it was
      given, keeps every earlier entry, and still satisfies the invariant. */
  lemma {:induction false} AssignAllRecords(r: Registry, titles: seq<string>)
    requires Inv(r) && r.max + |titles| <= I32Max
    decreases |titles|
    ensures var (rn, ids) := AssignAll(r, titles);
            Inv(rn) &&
            (forall t :: t in r.ids ==> t in rn.ids && rn.ids[t] == r.ids[t]) &&
            (forall i :: 0 <= i < |titles| ==> titles[i] in rn.ids && rn.ids[titles[i]] == ids[i])
  {
    if titles != [] {
      var (r1, id) := Assign(r, titles[0]);
      AssignSpec(r, titles[0]);
      AssignAllRecords(r1, titles[1..]);
      var (rn, ids) := AssignAll(r1, titles[1..]);
      assert AssignAll(r, titles) == (rn, [id] + ids);
      forall i | 0 <= i < |titles|
        ensures titles[i] in rn.ids && rn.ids[titles[i]] == ([id] + ids)[i]
      {
        if i > 0 {
          assert titles[i] == titles[1..][i - 1];
        }
      }
    }
  }

  /** Over a whole run, two lookups return the same id exactly when they
      asked for the same title. */
  lemma AssignAllIdsMatchTitles(r: Registry, titles: seq<string>)
    requires Inv(r) && r.max + |titles| <= I32Max
    ensures var (rn, ids) := AssignAll(r, titles);
            forall i, j :: 0 <= i < |titles| && 0 <= j < |titles| ==>
              (ids[i] == ids[j] <==> titles[i] == titles[j])
  {
    AssignAllRecords(r, titles);
  }

  /** The registry object the parser updates in place. */
  class IdHandler {
    var movieIds: map<string, int>
    var movieIdMax: int

    function Model(): Registry
      reads this
    {
      Registry(movieIds, movieIdMax)
    }

    ghost predicate Valid()
      reads this
    {
      Inv(Model())
    }

    /** `IdHandler::new`: a zeroed registry that `generate` then seeds. */
    constructor ()
      ensures Model() == Generated() && Valid()
    {
      movieIds := map[];
      movieIdMax := 0;
      new;
      Generate();
    }

    /** `generate`: forget everything and register the sample title. */
    method Generate()
      modifies this
      ensures Model() == Generated() && Valid()
    {
      movieIds := map[];
      movieIdMax := IdFloor;
      var _ := NewMovieId(SampleTitle);
    }

    /** `new_movie_id`: map `key` to the next id and advance the counter. */
    method NewMovieId(key: string) returns (newId: int)
      requires Valid() && movieIdMax < I32Max
      modifies this
      ensures (Model(), newId) == Mint(old(Model()), key)
      ensures Valid()
    {
      MintKeepsInv(Model(), key);
      newId := movieIdMax + 1;
      movieIds := movieIds[key := newId];
      movieIdMax := newId;
    }

    /** `find_or_generate_movie_id`: the stored id of a known title, or a
        freshly minted one for a new title. */
    method FindOrGenerateMovieId(title: string) returns (id: int)
      requires Valid() && (title in movieIds || movieIdMax < I32Max)
      modifies this
      ensures (Model(), id) == Assign(old(Model()), title)
      ensures Valid()
      ensures old(title in movieIds) ==>
                id == old(movieIds[title]) && movieIds == old(movieIds) && movieIdMax == old(movieIdMax)
      ensures old(title !in movieIds) ==>
                id == old(movieIdMax) + 1 && movieIdMax == id && movieIds == old(movieIds)[title := id]
    {
      AssignSpec(Model(), title);
      id := 0;
      var setNewId := false;
      if title in movieIds {
        id := movieIds[title];
      } else {
        setNewId := true;
      }
      if setNewId {
        id := NewMovieId(title);
      }
    }
  }
}
