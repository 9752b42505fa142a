/** The two handlers, one request at a time. */
module Router {
  import opened Common
  import opened Cells
  import opened RouterCache
  import opened TrieWords
  import opened DictCache
  import L = RecencyList

  const DICT_CACHE_CAPACITY: nat := 1024

  datatype Response =
    | MethodNotAllowed
    | BadRequest
    | WarmingUp
    | Served(ok: bool, hit: bool, json: string)

  /** The cached lookup a request asks for; an absent parameter is empty. */
  function WantedOf(english: string, id: string): Option<Wanted> {
    if english != "" then Some(ByEnglish(english))
    else if id != "" && forall i | 0 <= i < |id| :: IsDigit(id[i]) then Some(ById(id))
    else None
  }

  /** The key of a request: by its word if it names one, by its id if that is a number, and otherwise none. */
  function CacheKey(english: string, id: string): (key: string)
    ensures english != "" ==> key == "english:" + english
    ensures english == "" && AllDigits(id) ==> key == "id:" + id
    ensures english == "" && !AllDigits(id) ==> key == ""
  {
    var w := WantedOf(english, id);
    if w.None? then "" else KeyOf(w.value)
  }

  class Dictionary {
    ghost const world: World
    const cache: Cache   // s_dict_cache, which the source makes at the first request
    var rows: seq<Row>   // the dictionary table

    ghost predicate Valid()
      reads this, cache, cache.entries
    {
      && cache.Valid() && cache.entries.Length == DICT_CACHE_CAPACITY == world.capacity
      && Coherent(world, rows, cache.Items(), {})
    }

    ghost function Items(): seq<L.Item>
      reads this, cache, cache.entries
      requires Valid()
    {
      cache.Items()
    }

    constructor (ghost w: World, rows: seq<Row>)
      requires w.capacity == DICT_CACHE_CAPACITY
      ensures Valid() && Items() == [] && this.rows == rows && world == w && fresh(cache) && fresh(cache.entries)
    {
      world, this.rows := w, rows;
      var made := new Cache(DICT_CACHE_CAPACITY as int);
      cache := made;
    }

    /** handle_dict_request.  ok and json are what the engine answers if it is asked. */
    method DictRequest(get: bool, english: string, id: string, korean: string, nocache: bool, ready: bool,
                       ok: bool, json: string)
      returns (r: Response)
      requires Valid() && |english| < LITERAL_SIZE
      requires ok && Word(ByEnglish(english)) ==> Current(world, rows, ByEnglish(english), json)
      modifies cache, cache.entries
      ensures Valid() && rows == old(rows)
      ensures r.Served? && r.ok && Word(ByEnglish(english)) ==> Current(world, rows, ByEnglish(english), r.json)
      ensures r.MethodNotAllowed? <==> !get
      ensures r.BadRequest? <==> get && english == "" && (if id != "" then !AllDigits(id) else korean == "")
      ensures get && !nocache && CacheKey(english, id) != "" && L.Lookup(old(Items()), CacheKey(english, id)).Some? ==>
                r.Served? && r.hit
      ensures r.Served? && !r.hit ==> ready && r.ok == ok && r.json == json
      ensures r.Served? && r.hit ==>
                !nocache && r.ok && L.Lookup(old(Items()), CacheKey(english, id)) == Some(r.json)
      ensures
        var key := CacheKey(english, id);
        Items() == if !get || key == "" || nocache then old(Items())
                   else if r.Served? && !r.hit && r.ok then L.AfterPut(old(Items()), DICT_CACHE_CAPACITY, key, json)
                   else L.AfterGet(old(Items()), key)
    {
      if !get {
        return MethodNotAllowed;
      }
      var wanted := WantedOf(english, id);
      match wanted
      case Some(w) =>
        r := Cached(w, nocache, ready, ok, json);
      case None =>
        r := if id != "" || korean == "" then BadRequest else if !ready then WarmingUp else Served(ok, false, json);
    }

    /** The part of handle_dict_request behind the choice of the key. */
    method Cached(w: Wanted, nocache: bool, ready: bool, ok: bool, json: string) returns (r: Response)
      requires Valid() && w.text != ""
      requires ok && Word(w) ==> Current(world, rows, w, json)
      modifies cache, cache.entries
      ensures Valid()
      ensures r.Served? && r.ok && Word(w) ==> Current(world, rows, w, r.json)
      ensures r.Served? || r.WarmingUp?
      ensures r.Served? && !r.hit ==> ready && r.ok == ok && r.json == json
      ensures r.Served? && r.hit ==> !nocache && r.ok && L.Lookup(old(Items()), KeyOf(w)) == Some(r.json)
      ensures !nocache && L.Lookup(old(Items()), KeyOf(w)).Some? ==> r.Served? && r.hit
      ensures Items() == if nocache then old(Items())
                         else if r.Served? && !r.hit && r.ok then
                           L.AfterPut(old(Items()), DICT_CACHE_CAPACITY, KeyOf(w), json)
                         else L.AfterGet(old(Items()), KeyOf(w))
    {
      ghost var items := Items();
      LookCoherent(items, w, json, ok);
      if !nocache {
        var hit, found := cache.Get(Some(KeyOf(w)), true);
        if hit {
          return Served(true, true, found.value);
        }
      }
      if !ready {
        return WarmingUp;
      }
      if !nocache && ok {
        var rc := cache.Put(Some(KeyOf(w)), Some(json));
      }
      r := Served(ok, false, json);
    }

    /** What the lookup does to the cache leaves it coherent. */
    lemma LookCoherent(items: seq<L.Item>, w: Wanted, json: string, ok: bool)
      requires Valid() && items == Items()
      requires ok && Word(w) ==> Current(world, rows, w, json)
      ensures Coherent(world, rows, L.AfterGet(items, KeyOf(w)), {})
      ensures ok ==> Coherent(world, rows, L.AfterPut(items, DICT_CACHE_CAPACITY, KeyOf(w), json), {})
    {
      OrderSize(cache.entries[..], cache.order, cache.clock);
      ItemsUnique(cache.entries[..], cache.order, cache.clock);
      var s := State(rows, items, [if ok then Holding(w, json) else Idle]);
      assert Pending(s.tasks) == {};
      assert Inv(world, s);
      if ok {
        StepKeeps(world, s, Keep(0));
      }
      var q := State(rows, items, [Idle]);
      assert Pending(q.tasks) == {} && Inv(world, q);
      StepKeeps(world, q, Look(0, w));
    }

    /** handle_admin_insert_request.  row is what the engine adds if its INSERT succeeds. */
    method AdminInsert(post: bool, emptyBody: bool, english: string, korean: string, ready: bool, ok: bool, row: Row)
      returns (r: Response)
      requires Valid() && |english| < LITERAL_SIZE
      requires ok ==> |row| == |DICTIONARY| && row[1] == english && row[2] == korean
      modifies this`rows, cache, cache.entries
      ensures Valid()
      ensures r.MethodNotAllowed? <==> !post
      ensures r.BadRequest? <==> post && (emptyBody || !IsWord(english) || korean == "")
      ensures r.Served? ==> ready && r.ok == ok
      ensures rows == if r.Served? && ok then old(rows) + [row] else old(rows)
      ensures Items() == if r.Served? && ok then L.Without(old(Items()), "english:" + english) else old(Items())
    {
      if !post {
        return MethodNotAllowed;
      }
      if emptyBody || !IsWord(english) || korean == "" {
        return BadRequest;
      }
      if !ready {
        return WarmingUp;
      }
      if ok {
        Inserted(row);
      }
      r := Served(ok, false, "");
    }

    /** The engine's INSERT and the invalidation behind it. */
    method Inserted(row: Row)
      requires Valid() && |row| == |DICTIONARY| && IsEntry(row[1])
      modifies this`rows, cache, cache.entries
      ensures Valid() && rows == old(rows) + [row]
      ensures Items() == L.Without(old(Items()), KeyOf(ByEnglish(row[1])))
    {
      InsertCoherent(Items(), row);
      rows := rows + [row];
      cache.Invalidate(Some(KeyOf(ByEnglish(row[1]))));
    }

    /** The INSERT and the invalidation together leave the cache coherent. */
    lemma InsertCoherent(items: seq<L.Item>, row: Row)
      requires Valid() && items == Items()
      requires |row| == |DICTIONARY| && IsEntry(row[1])
      ensures Coherent(world, rows + [row], L.Without(items, KeyOf(ByEnglish(row[1]))), {})
    {
      OrderSize(cache.entries[..], cache.order, cache.clock);
      ItemsUnique(cache.entries[..], cache.order, cache.clock);
      var s := State(rows, items, [Idle]);
      assert Pending(s.tasks) == {} && Inv(world, s);
      StepKeeps(world, s, Write(0, row));
      var q := Apply(world, s, Write(0, row));
      StepKeeps(world, q, Drop(0));
      assert Pending(Apply(world, q, Drop(0)).tasks) == {};
    }
  }
}
