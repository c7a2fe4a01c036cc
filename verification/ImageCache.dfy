/** `AutoPurgingImageCache` of AlamofireImage (`ImageCache.swift`). Every block the cache runs on
    its queue is a barrier, so the blocks of all threads run one after the other in some order:
    a run is a sequence of blocks, and each method of the class below is one block. */
module ImageCache {
  import opened Bytes

  /** A decoded image; `totalBytes` is its size in memory. */
  datatype Image = Image(id: nat, totalBytes: nat)

  /** The value of a `CachedImage`. */
  datatype Entry = Entry(image: Image, identifier: string, date: int)

  datatype Cache = Cache(images: map<string, Entry>, usage: nat)

  datatype Limits = Limits(capacity: nat, preferred: nat)

  /** What an image was added for: a request with this URL and additional identifier, or the bare
      identifier it is kept under. The cache itself does not record it. */
  datatype Source = ForRequest(url: string, id: Option<string>) | Direct

  datatype Block =
    | Insert(image: Image, identifier: string, source: Source, now: int)
    | Purge
    | RemoveMatching(url: string)
    | Remove(identifier: string)
    | RemoveAll
    | Access(identifier: string, now: int)

  // ---------- sums over the cache ----------

  /** The bytes of all images. */
  ghost function Total(m: map<string, Entry>): nat {
    if m == map[] then 0
    else
      var k :| k in m;
      m[k].image.totalBytes + Total(m - {k})
  }

  lemma {:induction false} TotalRemove(m: map<string, Entry>, k: string)
    requires k in m
    ensures Total(m) == m[k].image.totalBytes + Total(m - {k})
    decreases |m|
  {
    var j :| j in m && Total(m) == m[j].image.totalBytes + Total(m - {j});
    if j != k {
      assert |m - {j}| < |m| by { SmallerMap(m, j); }
      assert |m - {k}| < |m| by { SmallerMap(m, k); }
      TotalRemove(m - {j}, k);
      TotalRemove(m - {k}, j);
      assert m - {j} - {k} == m - {k} - {j};
    }
  }

  lemma {:induction false} TotalInsert(m: map<string, Entry>, k: string, e: Entry)
    requires k !in m
    ensures Total(m[k := e]) == Total(m) + e.image.totalBytes
  {
    TotalRemove(m[k := e], k);
    assert m[k := e] - {k} == m;
  }

  /** `m` has some of the entries of `all`. */
  ghost predicate Within<T>(m: map<string, T>, all: map<string, T>) {
    forall k :: k in m ==> k in all && all[k] == m[k]
  }

  lemma {:induction false} WithinRemove<T>(m: map<string, T>, all: map<string, T>, k: string)
    requires Within(m, all)
    ensures Within(m - {k}, all) && Within(all, all)
  {
  }

  // ---------- the blocks ----------

  /** What `add` writes under a key. */
  ghost predicate Inserted(c: Cache, b: Block, c': Cache)
    requires b.Insert?
  {
    var e := Entry(b.image, b.identifier, b.now);
    c'.images == c.images[b.identifier := e]
    && c'.usage == c.usage - (if b.identifier in c.images then c.images[b.identifier].image.totalBytes else 0)
                   + b.image.totalBytes
  }

  /** The images that were removed. */
  ghost function Gone(images: map<string, Entry>, kept: map<string, Entry>): map<string, Entry> {
    images - kept.Keys
  }

  /** `kept` is what is left when a shortest prefix of the access-date order that holds at least
      `target` bytes is removed: everything removed was accessed no later than anything kept,
      and without some last removed image the prefix would have been too small. */
  ghost predicate Evicted(images: map<string, Entry>, target: int, kept: map<string, Entry>) {
    var gone := Gone(images, kept);
    && kept == images - gone.Keys
    && Total(gone) >= target
    && (forall g, k :: g in gone && k in kept ==> gone[g].date <= kept[k].date)
    && exists last :: last in gone && Total(gone - {last}) < target
                      && forall g :: g in gone ==> gone[g].date <= gone[last].date
  }

  /** `c'` is a state that block `b` may leave `c` in. */
  ghost predicate Step(l: Limits, c: Cache, b: Block, c': Cache) {
    match b
    case Insert(_, _, _, _) => Inserted(c, b, c')
    case Purge =>
      if c.usage > l.capacity
      then Evicted(c.images, c.usage - l.preferred, c'.images)
           && c'.usage + Total(Gone(c.images, c'.images)) == c.usage
      else c' == c
    case RemoveMatching(url) =>
      c'.images == (map k | k in c.images && !(url <= k) :: c.images[k])
      && c'.usage + Total(Gone(c.images, c'.images)) == c.usage
    case Remove(id) =>
      if id in c.images then c'.images == c.images - {id} && c'.usage + c.images[id].image.totalBytes == c.usage
      else c' == c
    case RemoveAll => c' == if c.images == map[] then c else Cache(map[], 0)
    case Access(id, now) =>
      if id in c.images then c'.images == c.images[id := c.images[id].(date := now)] && c'.usage == c.usage
      else c' == c
  }

  // ---------- conservation ----------

  /** The usage is the sum over the images, and every key is its entry's identifier. */
  ghost predicate Conserved(c: Cache) {
    c.usage == Total(c.images) && forall k :: k in c.images ==> c.images[k].identifier == k
  }

  lemma {:induction false} TotalSplit(images: map<string, Entry>, kept: map<string, Entry>)
    requires Within(kept, images)
    ensures Total(images) == Total(Gone(images, kept)) + Total(kept)
    decreases |kept|
  {
    if kept == map[] {
      assert Gone(images, kept) == images;
    } else {
      var k :| k in kept;
      SmallerMap(kept, k);
      TotalSplit(images, kept - {k});
      TotalRemove(kept, k);
      TotalRemove(Gone(images, kept - {k}), k);
      assert Gone(images, kept - {k}) - {k} == Gone(images, kept);
    }
  }

  /** Removing one more image moves its bytes from what is left to what is gone. */
  lemma {:induction false} RemoveOne(images: map<string, Entry>, left: map<string, Entry>, id: string)
    requires id in left && Within(left, images)
    ensures Total(left) == left[id].image.totalBytes + Total(left - {id})
    ensures Total(Gone(images, left - {id})) == Total(Gone(images, left)) + left[id].image.totalBytes
    ensures Gone(images, left - {id}) - {id} == Gone(images, left)
  {
    TotalRemove(left, id);
    TotalRemove(Gone(images, left - {id}), id);
    assert Gone(images, left - {id}) - {id} == Gone(images, left);
  }

  /** While the keys are walked through: of the keys that start with `url` only unvisited ones
      are left, and all others are. */
  ghost predicate MatchesLeft(images: map<string, Entry>, left: map<string, Entry>, url: string, keys: set<string>) {
    (forall k :: k in images && !(url <= k) ==> k in left)
    && (forall k :: k in left && url <= k ==> k in keys)
  }

  lemma {:induction false} VisitKey(images: map<string, Entry>, left: map<string, Entry>, url: string,
                                    keys: set<string>, key: string)
    requires Within(left, images) && MatchesLeft(images, left, url, keys) && key in left
    ensures MatchesLeft(images, if url <= key then left - {key} else left, url, keys - {key})
    ensures left - {key} != images
  {
    assert key !in left - {key};
  }

  lemma {:induction false} NoneVisited(images: map<string, Entry>, url: string, keys: set<string>)
    requires keys == images.Keys
    ensures MatchesLeft(images, images, url, keys)
  {
  }

  lemma {:induction false} MatchesGone(l: Limits, c: Cache, url: string, c': Cache)
    requires Within(c'.images, c.images) && MatchesLeft(c.images, c'.images, url, {})
    requires c'.usage + Total(Gone(c.images, c'.images)) == c.usage
    ensures Step(l, c, RemoveMatching(url), c')
    ensures c'.images != c.images <==> exists k :: k in c.images && url <= k
  {
    hide Total, Gone;
    var images, left := c.images, c'.images;
    assert left == map k | k in images && !(url <= k) :: images[k];
    if k :| k in images && url <= k { assert k !in left; }
    if forall k :: k in images ==> !(url <= k) { assert left == images; }
  }

  lemma {:induction false} NothingGone(images: map<string, Entry>)
    ensures Gone(images, images) == map[] && Total(Gone(images, images)) == 0
  {
  }

  lemma {:induction false} StartConserved(c: Cache)
    requires Conserved(c)
    ensures c.usage == Total(c.images)
  {
  }

  /** Every block keeps the invariant. */
  lemma {:induction false} StepConserves(l: Limits, c: Cache, b: Block, c': Cache)
    requires Conserved(c) && Step(l, c, b, c')
    ensures Conserved(c')
  {
    match b
    case Insert(_, id, _, _) =>
      var without := c.images - {id};
      if id in c.images { TotalRemove(c.images, id); } else { assert without == c.images; }
      TotalInsert(without, id, Entry(b.image, id, b.now));
      assert without[id := Entry(b.image, id, b.now)] == c'.images;
    case Purge => TotalSplit(c.images, c'.images);
    case RemoveMatching(_) => TotalSplit(c.images, c'.images);
    case Remove(id) => if id in c.images { TotalRemove(c.images, id); }
    case RemoveAll =>
    case Access(id, now) =>
      if id in c.images {
        var e := c.images[id].(date := now);
        TotalRemove(c.images, id);
        TotalInsert(c.images - {id}, id, e);
        assert (c.images - {id})[id := e] == c'.images;
      }
  }

  // ---------- keys ----------

  /** `imageCacheKey`; a request without a URL has the empty one. */
  function CacheKey(url: string, identifier: Option<string>): string {
    match identifier
    case None => url
    case Some(id) => url + "-" + id
  }

  /** `key` is one that `imageCacheKey` makes for this URL. */
  predicate MadeFor(key: string, url: string) {
    key == url || (url <= key && |key| > |url| && key[|url|] == '-')
  }

  lemma {:induction false} KeysMadeFor(key: string, url: string)
    ensures MadeFor(key, url) <==> exists id: Option<string> :: key == CacheKey(url, id)
  {
    if MadeFor(key, url) {
      if key == url {
        assert key == CacheKey(url, None);
      } else {
        assert key == CacheKey(url, Some(key[|url| + 1..]));
      }
    }
    if id: Option<string> :| key == CacheKey(url, id) {
      if id.Some? { assert url + "-" + id.value == url + ("-" + id.value); }
    }
  }

  /** An image added for a request is kept under the key made for that. */
  predicate Keyed(b: Block) {
    b.Insert? && b.source.ForRequest? ==> b.identifier == CacheKey(b.source.url, b.source.id)
  }

  // ---------- runs ----------

  /** The states of a run of `blocks` from the empty cache. */
  ghost predicate Runs(l: Limits, blocks: seq<Block>, states: seq<Cache>) {
    && |states| == |blocks| + 1
    && states[0] == Cache(map[], 0)
    && (forall b :: b in blocks ==> Keyed(b))
    && forall i :: 0 <= i < |blocks| ==> Step(l, states[i], blocks[i], states[i + 1])
  }

  /** Purge blocks still to come: every `add` submits an insert block and then a purge block. */
  function Pending(blocks: seq<Block>): int {
    if blocks == [] then 0
    else
      var b := blocks[|blocks| - 1];
      Pending(blocks[..|blocks| - 1]) + (if b.Insert? then 1 else if b.Purge? then -1 else 0)
  }

  /** No purge block runs before the insert block of its `add`. */
  ghost predicate Paired(blocks: seq<Block>) {
    forall i :: 0 <= i <= |blocks| ==> Pending(blocks[..i]) >= 0
  }

  /** Conservation at every block boundary of every interleaving, and the capacity bound whenever
      no purge block is pending. */
  lemma {:induction false} RunConserves(l: Limits, blocks: seq<Block>, states: seq<Cache>, i: nat)
    requires l.preferred <= l.capacity && Runs(l, blocks, states) && Paired(blocks) && i <= |blocks|
    ensures Conserved(states[i])
    ensures Pending(blocks[..i]) == 0 ==> states[i].usage <= l.capacity
    decreases i
  {
    hide Evicted;
    if i > 0 {
      RunConserves(l, blocks, states, i - 1);
      var c, b, c' := states[i - 1], blocks[i - 1], states[i];
      assert blocks[..i][..i - 1] == blocks[..i - 1];
      assert Step(l, c, b, c') && Pending(blocks[..i - 1]) >= 0;
      StepConserves(l, c, b, c');
      if b.Purge? { PurgeReaches(l, c, c'); }
    }
  }

  /** A purge that runs always reaches its target, and stops as soon as it does: it ends at or
      below the preferred usage, but would not have without the last image it removed. */
  lemma {:induction false} PurgeReaches(l: Limits, c: Cache, c': Cache)
    requires l.preferred <= l.capacity && Conserved(c) && Step(l, c, Purge, c')
    ensures c'.usage <= l.capacity
    ensures c.usage > l.capacity ==> c'.usage <= l.preferred
    ensures c.usage > l.capacity ==>
              exists last :: last in c.images && last !in c'.images
                             && c'.usage + c.images[last].image.totalBytes > l.preferred
  {
    if c.usage > l.capacity {
      var gone := Gone(c.images, c'.images);
      var last :| last in gone && Total(gone - {last}) < c.usage - l.preferred;
      TotalRemove(gone, last);
      assert last in c.images && last !in c'.images;
    }
  }

  // ---------- least recently used ----------

  /** The time of the last block that put or read the image under `id`. */
  function LastUse(blocks: seq<Block>, id: string): Option<int> {
    if blocks == [] then None
    else
      var b := blocks[|blocks| - 1];
      if (b.Insert? || b.Access?) && b.identifier == id then Some(b.now)
      else LastUse(blocks[..|blocks| - 1], id)
  }

  /** The access date of a cached image is the time of its last use. */
  lemma {:induction false} DatesAreLastUses(l: Limits, blocks: seq<Block>, states: seq<Cache>, i: nat, id: string)
    requires Runs(l, blocks, states) && i <= |blocks| && id in states[i].images
    ensures LastUse(blocks[..i], id) == Some(states[i].images[id].date)
    decreases i
  {
    hide Total;
    var c, b := states[i - 1], blocks[i - 1];
    assert blocks[..i][..i - 1] == blocks[..i - 1];
    assert Step(l, c, b, states[i]);
    if !((b.Insert? || b.Access?) && b.identifier == id) {
      assert id in c.images && states[i].images[id] == c.images[id];
      DatesAreLastUses(l, blocks, states, i - 1, id);
    }
  }

  /** LRU, over whole runs: no image survives a purge that was last used before one it removed. */
  lemma {:induction false} PurgeIsLRU(l: Limits, blocks: seq<Block>, states: seq<Cache>, i: nat,
                                     gone: string, kept: string)
    requires Runs(l, blocks, states) && i < |blocks| && blocks[i].Purge?
    requires gone in states[i].images && gone !in states[i + 1].images && kept in states[i + 1].images
    ensures kept in states[i].images
    ensures LastUse(blocks[..i], gone).Some? && LastUse(blocks[..i], kept).Some?
    ensures LastUse(blocks[..i], gone).value <= LastUse(blocks[..i], kept).value
  {
    hide Total;
    assert Step(l, states[i], blocks[i], states[i + 1]);
    DatesAreLastUses(l, blocks, states, i, gone);
    DatesAreLastUses(l, blocks, states, i, kept);
    assert gone in Gone(states[i].images, states[i + 1].images);
  }

  // ---------- what is cached ----------

  predicate Puts(b: Block, id: string) {
    b.Insert? && b.identifier == id
  }

  /** Block `k` takes out the image under `id`: by its identifier, by a prefix of that, with all others,
      or by evicting it from a cache that is over its capacity. */
  ghost predicate TakesOut(l: Limits, blocks: seq<Block>, states: seq<Cache>, k: nat, id: string)
    requires k < |blocks| && |states| == |blocks| + 1
  {
    blocks[k] == Remove(id) || blocks[k] == RemoveAll
    || (blocks[k].RemoveMatching? && blocks[k].url <= id)
    || (blocks[k].Purge? && states[k].usage > l.capacity && Evicts(states, k, id))
  }

  ghost predicate Evicts(states: seq<Cache>, k: nat, id: string)
    requires k + 1 < |states|
  {
    id in states[k].images && id !in states[k + 1].images
  }

  /** An image was put under `id` by block `j`, and no block from then on up to `i` takes it out. */
  ghost predicate KeptSince(l: Limits, blocks: seq<Block>, states: seq<Cache>, j: nat, i: nat, id: string)
    requires j < i <= |blocks| && |states| == |blocks| + 1
  {
    Puts(blocks[j], id) && forall k :: j < k < i ==> !TakesOut(l, blocks, states, k, id)
  }

  /** What one block does to the image under `id`. */
  lemma {:induction false} BlockKeeps(l: Limits, blocks: seq<Block>, states: seq<Cache>, k: nat, id: string)
    requires Runs(l, blocks, states) && k < |blocks|
    ensures id in states[k + 1].images <==>
              Puts(blocks[k], id) || (id in states[k].images && !TakesOut(l, blocks, states, k, id))
  {
    hide Total;
    assert Step(l, states[k], blocks[k], states[k + 1]);
  }

  /** Over every run: there is an image under `id` if and only if one was put there and has not been
      taken out since, by its identifier, by a prefix of that, with all others, or by a purge. */
  lemma {:induction false} CachedExact(l: Limits, blocks: seq<Block>, states: seq<Cache>, i: nat, id: string)
    requires Runs(l, blocks, states) && i <= |blocks|
    ensures id in states[i].images <==> exists j: nat :: j < i && KeptSince(l, blocks, states, j, i, id)
    decreases i
  {
    hide TakesOut, Step;
    if i > 0 {
      CachedExact(l, blocks, states, i - 1, id);
      BlockKeeps(l, blocks, states, i - 1, id);
      if Puts(blocks[i - 1], id) {
        assert KeptSince(l, blocks, states, i - 1, i, id);
      } else if id in states[i].images {
        var j: nat :| j < i - 1 && KeptSince(l, blocks, states, j, i - 1, id);
        assert KeptSince(l, blocks, states, j, i, id);
      }
      if j: nat :| j < i && KeptSince(l, blocks, states, j, i, id) {
        if j < i - 1 {
          assert KeptSince(l, blocks, states, j, i - 1, id);
          assert !TakesOut(l, blocks, states, i - 1, id);
        }
      }
    }
  }

  // ---------- removing the images of a request ----------

  /** The last block that put an image under `id`. */
  function LastInsert(blocks: seq<Block>, id: string): (r: Option<Block>)
    ensures r.Some? ==> r.value.Insert? && r.value.identifier == id && r.value in blocks
  {
    if blocks == [] then None
    else
      var b := blocks[|blocks| - 1];
      if b.Insert? && b.identifier == id then Some(b) else LastInsert(blocks[..|blocks| - 1], id)
  }

  /** The image under `id` was added for a request with this URL. */
  predicate CreatedFor(blocks: seq<Block>, id: string, url: string) {
    var b := LastInsert(blocks, id);
    b.Some? && b.value.source.ForRequest? && b.value.source.url == url
  }

  /** A cached image is the one that was last added under its key. */
  lemma {:induction false} CachedIsLastInsert(l: Limits, blocks: seq<Block>, states: seq<Cache>, i: nat, id: string)
    requires Runs(l, blocks, states) && i <= |blocks| && id in states[i].images
    ensures LastInsert(blocks[..i], id).Some?
    ensures LastInsert(blocks[..i], id).value.image == states[i].images[id].image
    decreases i
  {
    hide Total;
    var c, b := states[i - 1], blocks[i - 1];
    assert blocks[..i][..i - 1] == blocks[..i - 1];
    assert Step(l, c, b, states[i]);
    if !(b.Insert? && b.identifier == id) {
      assert id in c.images && states[i].images[id].image == c.images[id].image;
      CachedIsLastInsert(l, blocks, states, i - 1, id);
    }
  }

  lemma {:induction false} CreatedStarts(l: Limits, blocks: seq<Block>, states: seq<Cache>, i: nat, id: string,
                                         url: string)
    requires Runs(l, blocks, states) && i <= |blocks| && CreatedFor(blocks[..i], id, url)
    ensures url <= id
  {
    hide LastInsert, Step;
    var b := LastInsert(blocks[..i], id).value;
    assert b in blocks[..i];
    assert Keyed(b);
    KeysMadeFor(id, url);
  }

  /** `removeImages(matching:)` promises to remove the images created from the request. It misses
      none, and over every run it removes exactly those if and only if no cached image that was
      added for anything else has a key that starts with the URL. */
  lemma {:induction false} MatchingExact(l: Limits, blocks: seq<Block>, states: seq<Cache>, i: nat, url: string)
    requires Runs(l, blocks, states) && i < |blocks| && blocks[i] == RemoveMatching(url)
    ensures forall k :: k in states[i].images && CreatedFor(blocks[..i], k, url) ==> k !in states[i + 1].images
    ensures (forall k :: k in states[i].images ==> (k in states[i + 1].images <==> !CreatedFor(blocks[..i], k, url)))
       <==> (forall k :: k in states[i].images && !CreatedFor(blocks[..i], k, url) ==> !(url <= k))
  {
    hide Total, CreatedFor;
    assert Step(l, states[i], blocks[i], states[i + 1]);
    forall k | k in states[i].images ensures k in states[i + 1].images <==> !(url <= k) {}
    forall k | k in states[i].images && CreatedFor(blocks[..i], k, url) ensures url <= k {
      CreatedStarts(l, blocks, states, i, k, url);
    }
  }

  /** Adding an image for a longer URL, then removing the images of the shorter one. */
  function AddThenRemove(image: Image, other: string, url: string): seq<Block> {
    [Insert(image, other, ForRequest(other, None), 0), Purge, RemoveMatching(url)]
  }

  /** That removes the image, though it was added for another request. */
  lemma {:induction false} LongerRemoved(image: Image, other: string, url: string) returns (states: seq<Cache>)
    requires url <= other && url != other && image.totalBytes <= 100
    ensures var blocks := AddThenRemove(image, other, url);
            Runs(Limits(100, 60), blocks, states) && !CreatedFor(blocks[..2], other, url)
            && other in states[2].images && states[3].images == map[]
  {
    hide Evicted;
    var l, blocks := Limits(100, 60), AddThenRemove(image, other, url);
    var images := map[other := Entry(image, other, 0)];
    var full := Cache(images, image.totalBytes);
    states := [Cache(map[], 0), full, full, Cache(map[], 0)];
    assert Gone(images, map[]) == images && images - {other} == map[];
    TotalRemove(images, other);
    assert blocks[..2][..1] == [blocks[0]];
    assert LastInsert(blocks[..2], other) == LastInsert([blocks[0]], other) == Some(blocks[0]);
    forall i | 0 <= i < 3 ensures Step(l, states[i], blocks[i], states[i + 1]) {
      assert i == 0 || i == 1 || i == 2;
    }
    forall b | b in blocks ensures Keyed(b) {}
  }

  /** So removing the images of `a.png` also removes those that were added for `a.png2` and for
      `a.png-large`, the one with a key that no request for `a.png` has and the other with one that
      such a request could have. */
  lemma {:induction false} MatchingRemovesMore() returns (states: seq<Cache>, states': seq<Cache>)
    ensures var blocks := AddThenRemove(Image(0, 4), "a.png2", "a.png");
            Runs(Limits(100, 60), blocks, states) && !CreatedFor(blocks[..2], "a.png2", "a.png")
            && "a.png2" in states[2].images && "a.png2" !in states[3].images && !MadeFor("a.png2", "a.png")
    ensures var blocks := AddThenRemove(Image(0, 4), "a.png-large", "a.png");
            Runs(Limits(100, 60), blocks, states') && !CreatedFor(blocks[..2], "a.png-large", "a.png")
            && "a.png-large" in states'[2].images && "a.png-large" !in states'[3].images
            && MadeFor("a.png-large", "a.png")
  {
    hide Runs;
    assert "a.png" <= "a.png2" && "a.png" <= "a.png-large";
    assert "a.png2"[5] == '2' && "a.png-large"[5] == '-';
    states := LongerRemoved(Image(0, 4), "a.png2", "a.png");
    states' := LongerRemoved(Image(0, 4), "a.png-large", "a.png");
  }

  // ---------- the cache object ----------

  class CachedImage {
    const image: Image
    const identifier: string
    const totalBytes: nat := image.totalBytes
    var lastAccessDate: int

    constructor (image: Image, identifier: string, now: int)
      ensures Is() == Entry(image, identifier, now)
    {
      this.image, this.identifier, this.lastAccessDate := image, identifier, now;
    }

    function Is(): Entry
      reads this
    {
      Entry(image, identifier, lastAccessDate)
    }

    /** `accessImage`. */
    method AccessImage(now: int) returns (r: Image)
      modifies this
      ensures Is() == old(Is()).(date := now) && r == image
    {
      lastAccessDate := now;
      r := image;
    }
  }

  ghost predicate SortedByDate(s: seq<CachedImage>)
    reads s
  {
    forall i, j :: 0 <= i < j < |s| ==> s[i].lastAccessDate <= s[j].lastAccessDate
  }

  /** The values of a dictionary of images. */
  ghost function Snapshot(m: map<string, CachedImage>): map<string, Entry>
    reads set k | k in m :: m[k]
  {
    map k | k in m :: m[k].Is()
  }

  lemma {:induction false} SnapshotKeys(m: map<string, CachedImage>)
    ensures Snapshot(m).Keys == m.Keys
  {
  }

  lemma {:induction false} SnapshotRemove(m: map<string, CachedImage>, id: string)
    requires id in m
    ensures id in Snapshot(m) && Snapshot(m)[id] == m[id].Is()
    ensures Snapshot(m - {id}) == Snapshot(m) - {id}
  {
  }

  /** No identifier occurs twice. */
  predicate DistinctIds(s: seq<CachedImage>) {
    forall i, j :: 0 <= i < j < |s| ==> s[i].identifier != s[j].identifier
  }

  lemma {:induction false} InsertedAt(r: seq<CachedImage>, i: nat, x: CachedImage)
    requires i <= |r| && DistinctIds(r) && forall y :: y in r ==> y.identifier != x.identifier
    ensures forall y :: y in r[..i] + [x] + r[i..] <==> y in r || y == x
    ensures DistinctIds(r[..i] + [x] + r[i..])
  {
    assert r == r[..i] + r[i..];
    forall k | 0 <= k < |r| ensures r[k] in r[..i] + [x] + r[i..] {
      assert r[k] in r[..i] || r[k] in r[i..];
    }
  }

  lemma {:induction false} NotAgain(s: seq<CachedImage>, n: nat, y: CachedImage)
    requires DistinctIds(s) && n < |s| && y in s[..n]
    ensures y.identifier != s[n].identifier
  {
  }

  lemma {:induction false} NoImages()
    ensures SortedByDate([]) && DistinctIds([])
  {
  }

  lemma {:induction false} SortedInsert(r: seq<CachedImage>, i: nat, x: CachedImage)
    requires i <= |r| && SortedByDate(r)
    requires i > 0 ==> r[i - 1].lastAccessDate <= x.lastAccessDate
    requires i < |r| ==> x.lastAccessDate <= r[i].lastAccessDate
    ensures SortedByDate(r[..i] + [x] + r[i..])
  {
  }

  /** `sort` by access date. */
  method SortByDate(s: seq<CachedImage>) returns (r: seq<CachedImage>)
    requires DistinctIds(s)
    ensures SortedByDate(r) && DistinctIds(r)
    ensures forall x :: x in r <==> x in s
  {
    hide SortedByDate, DistinctIds;
    r := [];
    NoImages();
    for n := 0 to |s|
      invariant SortedByDate(r) && DistinctIds(r)
      invariant forall x :: x in r <==> x in s[..n]
    {
      var i := |r|;
      while i > 0 && r[i - 1].lastAccessDate > s[n].lastAccessDate
        invariant 0 <= i <= |r| && (i < |r| ==> r[i].lastAccessDate > s[n].lastAccessDate)
      {
        i := i - 1;
      }
      forall y | y in r ensures y.identifier != s[n].identifier { NotAgain(s, n, y); }
      SortedInsert(r, i, s[n]);
      InsertedAt(r, i, s[n]);
      assert s[..n + 1] == s[..n] + [s[n]];
      r := r[..i] + [s[n]] + r[i..];
    }
    assert s[..|s|] == s;
  }

  ghost function IdsFrom(s: seq<CachedImage>, i: nat): set<string> {
    set j | i <= j < |s| :: s[j].identifier
  }

  /** The dictionary holds exactly the images of `s` from index `i` on. */
  ghost predicate Holds(m: map<string, CachedImage>, s: seq<CachedImage>, i: nat) {
    i <= |s| && m.Keys == IdsFrom(s, i)
    && forall j :: i <= j < |s| ==> s[j].identifier in m && m[s[j].identifier] == s[j]
  }

  lemma {:induction false} IdsAppend(s: seq<CachedImage>, x: CachedImage)
    ensures IdsFrom(s + [x], 0) == IdsFrom(s, 0) + {x.identifier}
    ensures DistinctIds(s) && x.identifier !in IdsFrom(s, 0) ==> DistinctIds(s + [x])
  {
    var t := s + [x];
    assert t[|s|] == x;
    forall j | 0 <= j < |s| ensures s[j].identifier in IdsFrom(t, 0) { assert t[j] == s[j]; }
  }

  lemma {:induction false} HoldsNext(m: map<string, CachedImage>, s: seq<CachedImage>, i: nat)
    requires i < |s| && DistinctIds(s) && Holds(m, s, i)
    ensures s[i].identifier in m && m[s[i].identifier] == s[i]
    ensures Holds(m - {s[i].identifier}, s, i + 1)
  {
    forall j | i < j < |s| ensures s[j].identifier != s[i].identifier {}
    assert IdsFrom(s, i + 1) == IdsFrom(s, i) - {s[i].identifier};
  }

  lemma {:induction false} HoldsNone(m: map<string, CachedImage>, s: seq<CachedImage>)
    requires Holds(m, s, |s|)
    ensures Snapshot(m) == map[] && Total(Snapshot(m)) == 0
  {
    assert IdsFrom(s, |s|) == {};
  }

  lemma {:induction false} HoldsSorted(m: map<string, CachedImage>, s: seq<CachedImage>, r: seq<CachedImage>)
    requires Holds(m, s, 0) && forall x :: x in r <==> x in s
    ensures Holds(m, r, 0)
  {
    forall j | 0 <= j < |s| ensures s[j].identifier in IdsFrom(r, 0) { assert s[j] in r; }
    forall j | 0 <= j < |r| ensures r[j].identifier in m && m[r[j].identifier] == r[j] { assert r[j] in s; }
    assert IdsFrom(r, 0) == IdsFrom(s, 0);
  }

  /** Removing the images before index `i` of the access-date order evicts a shortest prefix. */
  lemma {:induction false} PrefixEvicted(all: map<string, CachedImage>, left: map<string, CachedImage>,
                                         s: seq<CachedImage>, i: nat, target: nat)
    requires 0 < i <= |s| && SortedByDate(s) && DistinctIds(s)
    requires Holds(all, s, 0) && Holds(left, s, i) && Within(left, all)
    requires Total(Gone(Snapshot(all), Snapshot(left))) >= target
    requires Total(Gone(Snapshot(all), Snapshot(left)) - {s[i - 1].identifier}) < target
    ensures Evicted(Snapshot(all), target, Snapshot(left))
  {
    hide Total, IdsFrom, Holds;
    var images, kept := Snapshot(all), Snapshot(left);
    var gone := Gone(images, kept);
    var last := s[i - 1].identifier;
    assert kept == images - gone.Keys;
    forall g | g in gone ensures gone[g].date <= s[i - 1].lastAccessDate {
      var _ := GoneIndex(all, left, s, i, g);
    }
    forall k | k in kept ensures s[i - 1].lastAccessDate <= kept[k].date {
      var _ := KeptIndex(left, s, i, k);
    }
    LastGone(all, left, s, i);
  }

  lemma {:induction false} GoneIndex(all: map<string, CachedImage>, left: map<string, CachedImage>,
                                     s: seq<CachedImage>, i: nat, g: string) returns (j: nat)
    requires Holds(all, s, 0) && Holds(left, s, i) && g in all && g !in left
    ensures j < i <= |s| && s[j] == all[g]
  {
    j :| 0 <= j < |s| && s[j].identifier == g;
  }

  lemma {:induction false} KeptIndex(left: map<string, CachedImage>, s: seq<CachedImage>, i: nat, k: string)
    returns (j: nat)
    requires Holds(left, s, i) && k in left
    ensures i <= j < |s| && s[j] == left[k]
  {
    j :| i <= j < |s| && s[j].identifier == k;
  }

  lemma {:induction false} LastGone(all: map<string, CachedImage>, left: map<string, CachedImage>,
                                    s: seq<CachedImage>, i: nat)
    requires 0 < i <= |s| && DistinctIds(s) && Holds(all, s, 0) && Holds(left, s, i)
    ensures s[i - 1].identifier in all && s[i - 1].identifier !in left
    ensures all[s[i - 1].identifier] == s[i - 1]
  {
  }

  class AutoPurgingImageCache {
    const memoryCapacity: nat
    const preferredMemoryUsageAfterPurge: nat
    var cachedImages: map<string, CachedImage>
    var currentMemoryUsage: nat

    ghost function Bounds(): Limits {
      Limits(memoryCapacity, preferredMemoryUsageAfterPurge)
    }

    ghost function Objects(): set<object>
      reads this
    {
      set k | k in cachedImages :: cachedImages[k]
    }

    ghost function Images(): map<string, Entry>
      reads this, Objects()
    {
      Snapshot(cachedImages)
    }

    ghost function View(): Cache
      reads this, Objects()
    {
      Cache(Images(), currentMemoryUsage)
    }

    /** The invariant of `Conserved`; it also says that no two keys share a `CachedImage`. */
    ghost predicate Valid()
      reads this, Objects()
    {
      && preferredMemoryUsageAfterPurge <= memoryCapacity
      && Conserved(View())
    }

    constructor (memoryCapacity: nat, preferredMemoryUsageAfterPurge: nat)
      requires memoryCapacity >= preferredMemoryUsageAfterPurge
      ensures Valid() && View() == Cache(map[], 0)
      ensures Bounds() == Limits(memoryCapacity, preferredMemoryUsageAfterPurge)
    {
      this.memoryCapacity, this.preferredMemoryUsageAfterPurge := memoryCapacity, preferredMemoryUsageAfterPurge;
      cachedImages, currentMemoryUsage := map[], 0;
    }

    /** The first block of `add`. */
    method InsertBlock(image: Image, identifier: string, ghost source: Source, now: int)
      requires Valid()
      modifies this
      ensures Valid() && Step(Bounds(), old(View()), Insert(image, identifier, source, now), View())
    {
      hide Total, Evicted, Gone;
      ghost var before := View();
      var cachedImage := new CachedImage(image, identifier, now);
      if identifier in cachedImages {
        TotalRemove(before.images, identifier);
        currentMemoryUsage := currentMemoryUsage - cachedImages[identifier].totalBytes;
      }
      cachedImages := cachedImages[identifier := cachedImage];
      currentMemoryUsage := currentMemoryUsage + cachedImage.totalBytes;
      assert Images() == before.images[identifier := cachedImage.Is()];
      StepConserves(Bounds(), before, Insert(image, identifier, source, now), View());
    }

    /** The first block of `add` for a request. */
    method InsertBlockFor(image: Image, url: string, id: Option<string>, now: int)
      requires Valid()
      modifies this
      ensures Valid() && Step(Bounds(), old(View()), Insert(image, CacheKey(url, id), ForRequest(url, id), now), View())
    {
      InsertBlock(image, CacheKey(url, id), ForRequest(url, id), now);
    }

    /** `image(withIdentifier:)`. */
    method ImageWithIdentifier(identifier: string, now: int) returns (image: Option<Image>)
      requires Valid()
      modifies Objects()
      ensures Valid() && Step(Bounds(), old(View()), Access(identifier, now), View())
      ensures image == if identifier in old(Images()) then Some(old(Images())[identifier].image) else None
    {
      ghost var before := View();
      image := None;
      if identifier in cachedImages {
        var i := cachedImages[identifier].AccessImage(now);
        image := Some(i);
        assert Images() == before.images[identifier := before.images[identifier].(date := now)];
      } else {
        assert View() == before;
      }
      StepConserves(Bounds(), before, Access(identifier, now), View());
    }

    /** Takes out one image and its bytes. */
    method RemoveEntry(key: string)
      requires key in cachedImages && currentMemoryUsage == Total(Images())
      modifies this
      ensures cachedImages == old(cachedImages) - {key} && Images() == old(Images()) - {key}
      ensures key in old(Images())
      ensures currentMemoryUsage + old(Images())[key].image.totalBytes == old(currentMemoryUsage)
      ensures currentMemoryUsage == Total(Images())
    {
      hide Total;
      SnapshotRemove(cachedImages, key);
      TotalRemove(Images(), key);
      currentMemoryUsage := currentMemoryUsage - cachedImages[key].totalBytes;
      cachedImages := cachedImages - {key};
    }

    /** `removeImage(withIdentifier:)`. */
    method RemoveImage(identifier: string) returns (removed: bool)
      requires Valid()
      modifies this
      ensures Valid() && Step(Bounds(), old(View()), Remove(identifier), View())
      ensures removed <==> identifier in old(Images())
    {
      ghost var before := View();
      removed := false;
      if identifier in cachedImages {
        RemoveEntry(identifier);
        removed := true;
      }
      StepConserves(Bounds(), before, Remove(identifier), View());
    }

    /** `removeAllImages`. */
    method RemoveAllImages() returns (removed: bool)
      requires Valid()
      modifies this
      ensures Valid() && Step(Bounds(), old(View()), RemoveAll, View())
      ensures removed <==> old(Images()) != map[]
    {
      ghost var before := View();
      removed := false;
      if cachedImages != map[] {
        ghost var k :| k in cachedImages;
        assert k in before.images;
        cachedImages, currentMemoryUsage := map[], 0;
        removed := true;
        assert Images() == map[];
      }
    }

    /** `removeImages(matching:)`, for a request whose cache key is `url`. */
    method RemoveImages(url: string) returns (removed: bool)
      requires Valid()
      modifies this
      ensures Valid() && Step(Bounds(), old(View()), RemoveMatching(url), View())
      ensures removed <==> exists k :: k in old(Images()) && url <= k
    {
      hide Total, Gone, Snapshot, MatchesLeft, Within, Step, Conserved, Evicted, Inserted;
      ghost var images, usage, left := Images(), currentMemoryUsage, Images();
      removed := false;
      var keys := cachedImages.Keys;
      NothingGone(images);
      SnapshotKeys(cachedImages);
      NoneVisited(images, url, keys);
      WithinRemove(left, images, "");
      WithinRemove(cachedImages, cachedImages, "");
      StartConserved(View());
      while keys != {}
        invariant keys <= cachedImages.Keys == left.Keys && Images() == left
        invariant Within(cachedImages, old(cachedImages)) && Within(left, images)
        invariant MatchesLeft(images, left, url, keys) && (removed <==> left != images)
        invariant currentMemoryUsage == Total(left) && currentMemoryUsage + Total(Gone(images, left)) == usage
        decreases keys
      {
        var key :| key in keys;
        VisitKey(images, left, url, keys, key);
        WithinRemove(cachedImages, old(cachedImages), key);
        WithinRemove(left, images, key);
        if url <= key {
          RemoveOne(images, left, key);
          RemoveEntry(key);
          removed := true;
          left := left - {key};
        }
        keys := keys - {key};
      }
      MatchesGone(Bounds(), Cache(images, usage), url, View());
      StepConserves(Bounds(), Cache(images, usage), RemoveMatching(url), View());
    }

    /** `cachedImages.map { $1 }`: the images in some order. */
    method Values() returns (s: seq<CachedImage>)
      requires Valid()
      ensures DistinctIds(s) && Holds(cachedImages, s, 0)
    {
      s := [];
      var keys := cachedImages.Keys;
      while keys != {}
        invariant keys <= cachedImages.Keys && DistinctIds(s)
        invariant IdsFrom(s, 0) == cachedImages.Keys - keys
        invariant forall j :: 0 <= j < |s| ==> s[j].identifier in cachedImages && cachedImages[s[j].identifier] == s[j]
        decreases keys
      {
        var key :| key in keys;
        assert Images()[key].identifier == key;
        IdsAppend(s, cachedImages[key]);
        s := s + [cachedImages[key]];
        keys := keys - {key};
      }
    }

    /** The second block of `add`. */
    method PurgeBlock()
      requires Valid()
      modifies this
      ensures Valid() && Step(Bounds(), old(View()), Purge, View())
    {
      hide Total, Gone, Snapshot, Within, Evicted, Holds, SortedByDate, DistinctIds;
      ghost var before := View();
      if currentMemoryUsage > memoryCapacity {
        var bytesToPurge := currentMemoryUsage - preferredMemoryUsageAfterPurge;
        var images := Values();
        var sortedImages := SortByDate(images);
        HoldsSorted(cachedImages, images, sortedImages);
        assert View() == before;
        var bytesPurged := PurgeImages(sortedImages, bytesToPurge);
        currentMemoryUsage := currentMemoryUsage - bytesPurged;
      }
      StepConserves(Bounds(), before, Purge, View());
    }

    /** The purge loop. Removes images in the given order until enough bytes are gone; the usage
        is adjusted only afterwards. */
    method PurgeImages(sortedImages: seq<CachedImage>, bytesToPurge: nat) returns (bytesPurged: nat)
      requires Valid() && 0 < bytesToPurge <= currentMemoryUsage
      requires SortedByDate(sortedImages) && DistinctIds(sortedImages)
      requires Holds(cachedImages, sortedImages, 0)
      modifies this`cachedImages
      ensures Evicted(old(Images()), bytesToPurge, Images()) && bytesPurged == Total(Gone(old(Images()), Images()))
      ensures bytesPurged + Total(Images()) == currentMemoryUsage
      ensures Within(cachedImages, old(cachedImages))
    {
      hide Total, Gone, Holds, SortedByDate, DistinctIds, Snapshot, Within, Evicted;
      ghost var images, left := Images(), Images();
      bytesPurged := 0;
      var i := 0;
      NothingGone(images);
      WithinRemove(left, images, "");
      WithinRemove(cachedImages, cachedImages, "");
      while i < |sortedImages| && bytesPurged < bytesToPurge
        invariant i <= |sortedImages| && Images() == left && Holds(cachedImages, sortedImages, i)
        invariant Within(cachedImages, old(cachedImages)) && Within(left, images)
        invariant bytesPurged == Total(Gone(images, left)) && bytesPurged + Total(left) == currentMemoryUsage
        invariant i == 0 ==> bytesPurged == 0
        invariant i > 0 ==> Total(Gone(images, left) - {sortedImages[i - 1].identifier}) < bytesToPurge
      {
        hide Conserved;
        HoldsNext(cachedImages, sortedImages, i);
        var cachedImage := sortedImages[i];
        SnapshotRemove(cachedImages, cachedImage.identifier);
        WithinRemove(cachedImages, old(cachedImages), cachedImage.identifier);
        WithinRemove(left, images, cachedImage.identifier);
        RemoveOne(images, left, cachedImage.identifier);
        cachedImages := cachedImages - {cachedImage.identifier};
        bytesPurged := bytesPurged + cachedImage.totalBytes;
        left := left - {cachedImage.identifier};
        i := i + 1;
      }
      if i == |sortedImages| { HoldsNone(cachedImages, sortedImages); }
      PrefixEvicted(old(cachedImages), cachedImages, sortedImages, i, bytesToPurge);
    }
  }
}
