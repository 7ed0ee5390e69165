/**
 The SNAT (IP, port block) allocator of the controller (pkg/controller/snatglobalinfo.go,
 snats.go and pkg/util/snat.go).

 A cache maps each SNAT IP to the nodes that use it and the port range each holds. A node
 worker chooses an (IP, block) pair in one lock section and commits it in a later one; node
 deletions and policy clears may run in between. Main results: over every run all nodes on
 one IP hold pairwise disjoint blocks of the configured list (`RunIsDisjoint`); a choice fails
 exactly when there is no block or every candidate IP is full (`ChooseFailsIff`); saving the
 cache per node and rebuilding it per IP is the identity exactly when the MAC table names the
 right nodes (`RebuildIsIdentity`).
 */
module Snat {
  import opened ApicTypes

  datatype PortRange = PortRange(start: int, end: int)

  /** An allocation always carries a range; the allocator reads the first one. */
  type Ranges = r: seq<PortRange> | r != [] witness [PortRange(0, 0)]

  datatype GlobalInfo = GlobalInfo(mac: string, portRanges: Ranges, snatIp: string, policy: string)

  /** snatGlobalInfoCache: SNAT IP -> node -> allocation. */
  type Cache = map<string, map<string, GlobalInfo>>

  predicate Disjoint(a: PortRange, b: PortRange) {
    a.end < b.start || b.end < a.start
  }

  /** Pairwise disjoint blocks with distinct starts. */
  predicate GoodBlocks(blocks: seq<PortRange>) {
    forall i, j :: 0 <= i < j < |blocks| ==> Disjoint(blocks[i], blocks[j]) && blocks[i].start != blocks[j].start
  }

  // ----- util.ExpandPortRanges -----

  /** Consecutive blocks of `step` ports from the start of the range; the last port is never used. */
  predicate Tiles(blocks: seq<PortRange>, item: PortRange, step: int) {
    && (forall i :: 0 <= i < |blocks| ==> blocks[i].end == blocks[i].start + step - 1 && blocks[i].end < item.end)
    && (forall i :: 0 < i < |blocks| ==> blocks[i].start == blocks[i - 1].end + 1)
    && (blocks != [] ==> blocks[0].start == item.start)
  }

  /** The inner loop ends: blocks are not empty, or there is nothing to cut up. */
  predicate Ends(item: PortRange, step: int) {
    step > 0 || item.start >= item.end - 1
  }

  /** What is left of the range is at most one block and the last port. */
  predicate UsedUp(blocks: seq<PortRange>, item: PortRange, step: int) {
    step > 0 ==> (if blocks == [] then item.start else blocks[|blocks| - 1].end + 1) + step >= item.end
  }

  /** The inner loop of ExpandPortRanges. */
  method ExpandPortRange(item: PortRange, step: int) returns (blocks: seq<PortRange>)
    requires Ends(item, step)
    ensures Tiles(blocks, item, step) && Rising(blocks) && UsedUp(blocks, item, step)
  {
    blocks := [];
    var temp := item.start;
    while temp < item.end - 1
      invariant Tiles(blocks, item, step) && Rising(blocks)
      invariant blocks != [] ==> blocks[|blocks| - 1].end < temp
      invariant step > 0 ==> var next := if blocks == [] then item.start else blocks[|blocks| - 1].end + 1;
        temp == next || (next < temp && next + step > item.end)
      decreases item.end - temp
    {
      if temp + step - 1 <= item.end - 1 {
        TileMore(blocks, item, step, PortRange(temp, temp + step - 1));
        blocks := blocks + [PortRange(temp, temp + step - 1)];
      }
      temp := temp + step;
    }
  }

  predicate Rising(blocks: seq<PortRange>) {
    && (forall i :: 0 <= i < |blocks| ==> blocks[i].start <= blocks[i].end)
    && (forall i, j :: 0 <= i < j < |blocks| ==> blocks[i].end < blocks[j].start)
  }

  lemma TileMore(blocks: seq<PortRange>, item: PortRange, step: int, b: PortRange)
    requires Tiles(blocks, item, step) && Rising(blocks) && step > 0
    requires b.end == b.start + step - 1 && b.end < item.end
    requires b.start == if blocks == [] then item.start else blocks[|blocks| - 1].end + 1
    ensures Tiles(blocks + [b], item, step) && Rising(blocks + [b])
  {
    forall i | 0 <= i < |blocks| ensures blocks[i].end < b.start {
      if i < |blocks| - 1 { assert blocks[i].end < blocks[|blocks| - 1].start; }
    }
  }

  /** StartSorter: insertion by the start of the range. */
  function InsertBlock(b: PortRange, f: seq<PortRange>): seq<PortRange> {
    if f == [] then [b] else if f[0].start < b.start then [f[0]] + InsertBlock(b, f[1..]) else [b] + f
  }

  function SortBlocks(f: seq<PortRange>): seq<PortRange> {
    if f == [] then [] else InsertBlock(f[0], SortBlocks(f[1..]))
  }

  predicate ByStart(f: seq<PortRange>) {
    forall i, j :: 0 <= i < j < |f| ==> f[i].start <= f[j].start
  }

  predicate ApartFrom(b: PortRange, f: seq<PortRange>) {
    forall x :: x in f ==> Disjoint(b, x) && b.start != x.start
  }

  lemma GoodCons(b: PortRange, f: seq<PortRange>)
    ensures GoodBlocks([b] + f) <==> GoodBlocks(f) && ApartFrom(b, f)
  {
    var g := [b] + f;
    hide Disjoint;
    assert g[0] == b && forall i :: 0 < i < |g| ==> g[i] == f[i - 1];
    if GoodBlocks(f) && ApartFrom(b, f) {
      forall i, j | 0 <= i < j < |g| ensures Disjoint(g[i], g[j]) && g[i].start != g[j].start {
        assert f[j - 1] in f;
        if i > 0 { assert Disjoint(f[i - 1], f[j - 1]); }
      }
    }
    if GoodBlocks(g) {
      forall i, j | 0 <= i < j < |f| ensures Disjoint(f[i], f[j]) && f[i].start != f[j].start {
        assert Disjoint(g[i + 1], g[j + 1]);
      }
      forall x | x in f ensures Disjoint(b, x) && b.start != x.start {
        var i :| 0 <= i < |f| && f[i] == x;
        assert Disjoint(g[0], g[i + 1]);
      }
    }
  }

  lemma {:induction false} InsertBlockElements(b: PortRange, f: seq<PortRange>)
    ensures multiset(InsertBlock(b, f)) == multiset(f) + multiset{b}
    ensures forall x :: x in InsertBlock(b, f) <==> x == b || x in f
  {
    if f != [] && f[0].start < b.start {
      assert f == [f[0]] + f[1..];
      InsertBlockElements(b, f[1..]);
    }
  }

  lemma {:induction false} InsertBlockIs(b: PortRange, f: seq<PortRange>)
    ensures ByStart(f) ==> ByStart(InsertBlock(b, f))
    ensures GoodBlocks(f) && ApartFrom(b, f) ==> GoodBlocks(InsertBlock(b, f))
  {
    if f == [] {
    } else if f[0].start < b.start {
      var r := InsertBlock(b, f[1..]);
      assert f == [f[0]] + f[1..] && InsertBlock(b, f) == [f[0]] + r;
      InsertBlockIs(b, f[1..]);
      InsertBlockElements(b, f[1..]);
      GoodCons(f[0], f[1..]);
      GoodCons(f[0], r);
      hide GoodBlocks, InsertBlock;
      if ByStart(f) { StartFirst(f[0], f[1..], r); }
    } else {
      assert f == [f[0]] + f[1..];
      GoodCons(b, f);
    }
  }

  lemma StartFirst(a: PortRange, f: seq<PortRange>, g: seq<PortRange>)
    requires ByStart([a] + f) && ByStart(g) && forall x :: x in g ==> x in f || x.start > a.start
    ensures ByStart([a] + g)
  {
    var h := [a] + f;
    forall x | x in f ensures a.start <= x.start {
      var i :| 0 <= i < |f| && f[i] == x;
      assert h[0] == a && h[i + 1] == x;
    }
    forall i, j | 0 <= i < j < |[a] + g| ensures ([a] + g)[i].start <= ([a] + g)[j].start {
      assert ([a] + g)[j] == g[j - 1] && g[j - 1] in g;
      if i > 0 { assert ([a] + g)[i] == g[i - 1]; }
    }
  }

  lemma {:induction false} SortBlocksIs(f: seq<PortRange>)
    ensures multiset(SortBlocks(f)) == multiset(f) && ByStart(SortBlocks(f))
    ensures forall x :: x in SortBlocks(f) <==> x in f
    ensures GoodBlocks(f) ==> GoodBlocks(SortBlocks(f))
  {
    if f != [] {
      assert f == [f[0]] + f[1..];
      SortBlocksIs(f[1..]);
      InsertBlockIs(f[0], SortBlocks(f[1..]));
      InsertBlockElements(f[0], SortBlocks(f[1..]));
      GoodCons(f[0], f[1..]);
    }
  }

  function Concat(parts: seq<seq<PortRange>>): seq<PortRange> {
    if parts == [] then [] else Concat(parts[..|parts| - 1]) + parts[|parts| - 1]
  }

  /** The blocks of each range, cut from it in order until it is used up. */
  predicate Cut(parts: seq<seq<PortRange>>, items: seq<PortRange>, step: int) {
    |parts| == |items| && forall i :: 0 <= i < |parts| ==>
      Tiles(parts[i], items[i], step) && Rising(parts[i]) && UsedUp(parts[i], items[i], step)
  }

  predicate InSome(x: PortRange, items: seq<PortRange>) {
    exists i :: 0 <= i < |items| && In(x, items[i])
  }

  predicate In(x: PortRange, item: PortRange) {
    item.start <= x.start <= x.end < item.end
  }

  predicate AllApart(items: seq<PortRange>) {
    forall i, j :: 0 <= i < j < |items| ==> Disjoint(items[i], items[j])
  }

  lemma {:induction false} CutIsGood(parts: seq<seq<PortRange>>, items: seq<PortRange>, step: int)
    requires Cut(parts, items, step) && AllApart(items)
    ensures GoodBlocks(Concat(parts)) && forall x :: x in Concat(parts) ==> InSome(x, items)
  {
    if parts != [] {
      var n := |parts| - 1;
      var front, last := Concat(parts[..n]), parts[n];
      assert Cut(parts[..n], items[..n], step) && AllApart(items[..n]);
      CutIsGood(parts[..n], items[..n], step);
      TilesWithin(last, items[n], step);
      assert Rising(last) && Concat(parts) == front + last;
      hide Tiles, Rising, UsedUp, Cut, GoodBlocks, Concat;
      forall x, y | x in front && y in last ensures Disjoint(x, y) && x.start != y.start {
        FrontApart(x, y, items);
      }
      GoodConcat(front, last);
      hide Disjoint, AllApart;
      forall x | x in Concat(parts) ensures InSome(x, items) {
        if x in front { StillIn(x, items, n); } else { LastIn(x, items, n); }
      }
    }
  }

  lemma StillIn(x: PortRange, items: seq<PortRange>, n: nat)
    requires n <= |items| && InSome(x, items[..n])
    ensures InSome(x, items)
  {
    hide In;
    var i :| 0 <= i < n && In(x, items[..n][i]);
    assert In(x, items[i]);
  }

  lemma LastIn(x: PortRange, items: seq<PortRange>, n: nat)
    requires n < |items| && In(x, items[n])
    ensures InSome(x, items)
  {
  }

  lemma FrontApart(x: PortRange, y: PortRange, items: seq<PortRange>)
    requires items != [] && AllApart(items) && InSome(x, items[..|items| - 1]) && In(y, items[|items| - 1])
    ensures Disjoint(x, y) && x.start != y.start
  {
    var i :| 0 <= i < |items| - 1 && In(x, items[..|items| - 1][i]);
    assert Disjoint(items[i], items[|items| - 1]);
  }

  lemma {:induction false} TilesWithin(blocks: seq<PortRange>, item: PortRange, step: int)
    requires Tiles(blocks, item, step) && Rising(blocks)
    ensures forall x :: x in blocks ==> In(x, item)
  {
    forall i | 0 <= i < |blocks| ensures item.start <= blocks[i].start {
      if i > 0 { assert blocks[0].start <= blocks[0].end < blocks[i].start; }
    }
  }

  lemma GoodConcat(f: seq<PortRange>, g: seq<PortRange>)
    requires GoodBlocks(f) && Rising(g) && forall x, y :: x in f && y in g ==> Disjoint(x, y) && x.start != y.start
    ensures GoodBlocks(f + g)
  {
    var h := f + g;
    forall i, j | 0 <= i < j < |h| ensures Disjoint(h[i], h[j]) && h[i].start != h[j].start {
      if j < |f| {
        assert h[i] == f[i] && h[j] == f[j];
      } else if i < |f| {
        assert h[i] == f[i] && h[j] == g[j - |f|] && f[i] in f && g[j - |f|] in g;
      } else {
        assert h[i] == g[i - |f|] && h[j] == g[j - |f|];
      }
    }
  }

  /** util.ExpandPortRanges: the blocks of all ranges, sorted; good blocks when the ranges do not overlap. */
  method ExpandPortRanges(items: seq<PortRange>, step: int)
    returns (blocks: seq<PortRange>, ghost parts: seq<seq<PortRange>>)
    requires forall i :: 0 <= i < |items| ==> Ends(items[i], step)
    ensures Cut(parts, items, step) && multiset(blocks) == multiset(Concat(parts)) && ByStart(blocks)
    ensures AllApart(items) ==> GoodBlocks(blocks)
  {
    blocks, parts := [], [];
    for k := 0 to |items|
      invariant Cut(parts, items[..k], step) && blocks == Concat(parts)
    {
      var part := ExpandPortRange(items[k], step);
      assert (parts + [part])[..|parts|] == parts;
      hide Tiles, Rising, UsedUp;
      blocks, parts := blocks + part, parts + [part];
    }
    assert items[..|items|] == items;
    if AllApart(items) { CutIsGood(parts, items, step); }
    SortBlocksIs(blocks);
    blocks := SortBlocks(blocks);
  }

  // ----- Choosing -----

  predicate GoodEntries(infos: map<string, GlobalInfo>, blocks: seq<PortRange>) {
    forall n :: n in infos ==> infos[n].portRanges[0] in blocks
  }

  /** Nodes on one IP hold pairwise disjoint ranges. */
  predicate Apart(infos: map<string, GlobalInfo>) {
    forall n, m :: n in infos && m in infos && n != m ==>
      Disjoint(infos[n].portRanges[0], infos[m].portRanges[0])
  }

  /** Every entry sits under its own IP with one block of the list, nodes on an IP are apart, and no IP is empty. */
  predicate GoodCache(cache: Cache, blocks: seq<PortRange>) {
    forall ip :: ip in cache ==>
      && cache[ip] != map[]
      && GoodEntries(cache[ip], blocks) && Apart(cache[ip])
      && forall n :: n in cache[ip] ==> cache[ip][n].snatIp == ip
  }

  datatype Choice = Failed | Chosen(ip: string, range: PortRange)

  /** The block starts in use on an IP. */
  function SeenStarts(infos: map<string, GlobalInfo>): set<int>
  {
    set n | n in infos :: infos[n].portRanges[0].start
  }

  function FirstFree(seen: set<int>, blocks: seq<PortRange>): Option<PortRange> {
    if blocks == [] then None
    else if blocks[0].start !in seen then Some(blocks[0])
    else FirstFree(seen, blocks[1..])
  }

  /** What one candidate IP offers: None when it is skipped. */
  function Offer(cache: Cache, ip: string, node: string, blocks: seq<PortRange>): Option<Choice>
    requires blocks != []
  {
    if ip !in cache then Some(Chosen(ip, blocks[0]))
    else if |cache[ip]| >= |blocks| then None
    else if node in cache[ip] then Some(Chosen(cache[ip][node].snatIp, cache[ip][node].portRanges[0]))
    else match FirstFree(SeenStarts(cache[ip]), blocks)
      case Some(b) => Some(Chosen(ip, b))
      case None => None
  }

  /** The lock is taken anew for each candidate: `views[i]` is the cache when `ips[i]` is looked at. */
  function Choose(views: seq<Cache>, ips: seq<string>, node: string, blocks: seq<PortRange>): Choice
    requires |views| == |ips|
  {
    if blocks == [] || ips == [] then Failed
    else match Offer(views[0], ips[0], node, blocks)
      case Some(c) => c
      case None => Choose(views[1..], ips[1..], node, blocks)
  }

  predicate GoodViews(views: seq<Cache>, blocks: seq<PortRange>) {
    forall i :: 0 <= i < |views| ==> GoodCache(views[i], blocks)
  }

  /** The IP carries as many nodes as there are blocks. */
  predicate Full(cache: Cache, ip: string, blocks: seq<PortRange>) {
    ip in cache && |cache[ip]| >= |blocks|
  }

  // Pigeonhole: fewer nodes than blocks leaves a block whose start nobody uses.

  lemma {:induction false} SetOfStarts(blocks: seq<PortRange>, seen: set<int>)
    requires forall i, j :: 0 <= i < j < |blocks| ==> blocks[i].start != blocks[j].start
    requires forall i :: 0 <= i < |blocks| ==> blocks[i].start in seen
    ensures |blocks| <= |seen|
  {
    if blocks != [] {
      var rest := blocks[1..];
      SetOfStarts(rest, seen - {blocks[0].start});
    }
  }

  lemma {:induction false} SeenIsSmall(infos: map<string, GlobalInfo>)
    ensures |SeenStarts(infos)| <= |infos|
    decreases |infos|
  {
    if infos == map[] {
      assert SeenStarts(infos) == {};
    } else {
      var n :| n in infos;
      var rest := infos - {n};
      assert rest.Keys == infos.Keys - {n};
      SeenIsSmall(rest);
      assert forall k :: k in infos && k != n ==> k in rest && rest[k] == infos[k];
      assert forall k :: k in rest ==> k in infos && rest[k] == infos[k];
      var seen, more := SeenStarts(infos), SeenStarts(rest) + {infos[n].portRanges[0].start};
      forall y ensures y in seen <==> y in more {
        if y in SeenStarts(rest) {
          var k :| k in rest && rest[k].portRanges[0].start == y;
          assert infos[k].portRanges[0].start == y;
        }
      }
      assert seen == more;
    }
  }

  lemma {:induction false} FirstFreeIs(seen: set<int>, blocks: seq<PortRange>)
    ensures var r := FirstFree(seen, blocks);
      if r.Some? then r.value in blocks && r.value.start !in seen
      else forall i :: 0 <= i < |blocks| ==> blocks[i].start in seen
  {
    if blocks != [] {
      FirstFreeIs(seen, blocks[1..]);
      assert forall i :: 0 < i < |blocks| ==> blocks[i] == blocks[1..][i - 1];
    }
  }

  // ----- What is chosen, without the scan -----

  /** No node on the IP starts at this block. */
  predicate IsFree(infos: map<string, GlobalInfo>, block: PortRange) {
    forall n :: n in infos ==> infos[n].portRanges[0].start != block.start
  }

  /** The candidate has no room: as many nodes as blocks, or a new node and no free block. */
  predicate Skipped(cache: Cache, ip: string, node: string, blocks: seq<PortRange>) {
    ip in cache &&
    (|cache[ip]| >= |blocks| ||
     (node !in cache[ip] && forall k :: 0 <= k < |blocks| ==> !IsFree(cache[ip], blocks[k])))
  }

  /**
   What a candidate that is not skipped gives: the first block on an IP nobody uses, the range the node
   already has, or else the free block of least index.
   */
  predicate Gives(cache: Cache, ip: string, node: string, blocks: seq<PortRange>, gotIp: string, range: PortRange)
    requires blocks != []
  {
    if ip !in cache then gotIp == ip && range == blocks[0]
    else if node in cache[ip] then gotIp == cache[ip][node].snatIp && range == cache[ip][node].portRanges[0]
    else gotIp == ip && exists k :: 0 <= k < |blocks| && range == blocks[k] && IsLeastFree(cache[ip], blocks, k)
  }

  predicate IsLeastFree(infos: map<string, GlobalInfo>, blocks: seq<PortRange>, k: nat)
    requires k < |blocks|
  {
    IsFree(infos, blocks[k]) && forall j :: 0 <= j < k ==> !IsFree(infos, blocks[j])
  }

  /** Candidate `i` is the first that is not skipped, and gives this. */
  predicate GivenAt(views: seq<Cache>, ips: seq<string>, node: string, blocks: seq<PortRange>, i: nat, ip: string,
                    range: PortRange)
    requires |views| == |ips| && i < |ips| && blocks != []
  {
    && (forall j :: 0 <= j < i ==> Skipped(views[j], ips[j], node, blocks))
    && !Skipped(views[i], ips[i], node, blocks)
    && Gives(views[i], ips[i], node, blocks, ip, range)
  }

  lemma SeenIffNotFree(infos: map<string, GlobalInfo>, block: PortRange)
    ensures block.start in SeenStarts(infos) <==> !IsFree(infos, block)
  {
  }

  lemma {:induction false} FirstFreeAt(seen: set<int>, blocks: seq<PortRange>) returns (k: nat)
    ensures k <= |blocks| && forall j :: 0 <= j < k ==> blocks[j].start in seen
    ensures FirstFree(seen, blocks) == if k < |blocks| then Some(blocks[k]) else None
    ensures k < |blocks| ==> blocks[k].start !in seen
  {
    if blocks == [] || blocks[0].start !in seen {
      k := 0;
    } else {
      k := FirstFreeAt(seen, blocks[1..]);
      assert forall j :: 0 < j < |blocks| ==> blocks[j] == blocks[1..][j - 1];
      k := k + 1;
    }
  }

  /** An offer is made exactly by a candidate that is not skipped. */
  lemma OfferIs(cache: Cache, ip: string, node: string, blocks: seq<PortRange>)
    requires blocks != []
    ensures var o := Offer(cache, ip, node, blocks);
      if Skipped(cache, ip, node, blocks) then o.None?
      else o.Some? && o.value.Chosen? && Gives(cache, ip, node, blocks, o.value.ip, o.value.range)
  {
    if ip in cache && |cache[ip]| < |blocks| && node !in cache[ip] {
      var infos := cache[ip];
      forall k | 0 <= k < |blocks| ensures blocks[k].start in SeenStarts(infos) <==> !IsFree(infos, blocks[k]) {
        SeenIffNotFree(infos, blocks[k]);
      }
      var k := FirstFreeAt(SeenStarts(infos), blocks);
      hide FirstFree, SeenStarts, IsFree;
      if k < |blocks| { assert IsLeastFree(infos, blocks, k); }
    }
  }

  /** The choice fails when every candidate is skipped; otherwise it is what the first other candidate gives. */
  lemma {:induction false} ChooseIs(views: seq<Cache>, ips: seq<string>, node: string, blocks: seq<PortRange>)
    requires |views| == |ips| && blocks != []
    ensures var c := Choose(views, ips, node, blocks);
      match c
      case Failed => forall j :: 0 <= j < |ips| ==> Skipped(views[j], ips[j], node, blocks)
      case Chosen(ip, range) => exists i :: 0 <= i < |ips| && GivenAt(views, ips, node, blocks, i, ip, range)
  {
    if ips != [] {
      OfferIs(views[0], ips[0], node, blocks);
      ChooseIs(views[1..], ips[1..], node, blocks);
      hide Offer, Skipped, Gives;
      var c, d := Choose(views, ips, node, blocks), Choose(views[1..], ips[1..], node, blocks);
      assert forall j :: 0 < j < |ips| ==> views[j] == views[1..][j - 1] && ips[j] == ips[1..][j - 1];
      if !Skipped(views[0], ips[0], node, blocks) {
        assert GivenAt(views, ips, node, blocks, 0, c.ip, c.range);
      } else if d.Chosen? {
        var i :| 0 <= i < |ips[1..]| && GivenAt(views[1..], ips[1..], node, blocks, i, d.ip, d.range);
        assert GivenAt(views, ips, node, blocks, i + 1, c.ip, c.range);
      }
    }
  }

  lemma FreeBlockExists(infos: map<string, GlobalInfo>, blocks: seq<PortRange>)
    requires GoodBlocks(blocks) && GoodEntries(infos, blocks) && |infos| < |blocks|
    ensures FirstFree(SeenStarts(infos), blocks).Some?
  {
    var seen := SeenStarts(infos);
    FirstFreeIs(seen, blocks);
    if FirstFree(seen, blocks).None? {
      SetOfStarts(blocks, seen);
      SeenIsSmall(infos);
    }
  }

  predicate AllFull(views: seq<Cache>, ips: seq<string>, blocks: seq<PortRange>)
    requires |views| == |ips|
  {
    forall i :: 0 <= i < |ips| ==> Full(views[i], ips[i], blocks)
  }

  lemma AllFullCons(views: seq<Cache>, ips: seq<string>, blocks: seq<PortRange>)
    requires |views| == |ips| > 0
    ensures AllFull(views, ips, blocks) <==> Full(views[0], ips[0], blocks) && AllFull(views[1..], ips[1..], blocks)
  {
    hide Full;
    forall i | 0 < i < |ips| ensures views[1..][i - 1] == views[i] && ips[1..][i - 1] == ips[i] {}
    if AllFull(views[1..], ips[1..], blocks) && Full(views[0], ips[0], blocks) {
      forall i | 0 <= i < |ips| ensures Full(views[i], ips[i], blocks) {
        if i > 0 { assert Full(views[1..][i - 1], ips[1..][i - 1], blocks); }
      }
    }
  }

  lemma OfferFailsIff(cache: Cache, ip: string, node: string, blocks: seq<PortRange>)
    requires GoodBlocks(blocks) && GoodCache(cache, blocks) && blocks != []
    ensures Offer(cache, ip, node, blocks).None? <==> Full(cache, ip, blocks)
    ensures Offer(cache, ip, node, blocks).Some? ==> Offer(cache, ip, node, blocks).value.Chosen?
  {
    if ip in cache && |cache[ip]| < |blocks| { FreeBlockExists(cache[ip], blocks); }
  }

  /** Allocation fails exactly when there is no block or each candidate IP was full when it was looked at. */
  lemma {:induction false} ChooseFailsIff(views: seq<Cache>, ips: seq<string>, node: string, blocks: seq<PortRange>)
    requires GoodBlocks(blocks) && |views| == |ips| && GoodViews(views, blocks)
    ensures Choose(views, ips, node, blocks).Failed? <==> blocks == [] || AllFull(views, ips, blocks)
  {
    if blocks != [] && ips != [] {
      ChooseFailsIff(views[1..], ips[1..], node, blocks);
      OfferFailsIff(views[0], ips[0], node, blocks);
      AllFullCons(views, ips, blocks);
      hide Offer, Full, AllFull, GoodCache, GoodBlocks;
    }
  }

  /** A chosen range is a listed block on a candidate IP, apart from what every other node holds there. */
  predicate Available(cache: Cache, blocks: seq<PortRange>, node: string, ip: string, range: PortRange) {
    range in blocks &&
    (ip in cache ==> forall m :: m in cache[ip] && m != node ==>
       Disjoint(range, cache[ip][m].portRanges[0]))
  }

  lemma FreeIsApart(infos: map<string, GlobalInfo>, blocks: seq<PortRange>)
    requires GoodBlocks(blocks) && GoodEntries(infos, blocks)
    ensures var r := FirstFree(SeenStarts(infos), blocks);
      r.Some? ==> r.value in blocks && forall m :: m in infos ==> Disjoint(r.value, infos[m].portRanges[0])
  {
    FirstFreeIs(SeenStarts(infos), blocks);
    var r := FirstFree(SeenStarts(infos), blocks);
    if r.Some? {
      forall m | m in infos ensures Disjoint(r.value, infos[m].portRanges[0]) {
        assert infos[m].portRanges[0].start in SeenStarts(infos);
      }
    }
  }

  lemma OfferIsAvailable(cache: Cache, ip: string, node: string, blocks: seq<PortRange>)
    requires GoodBlocks(blocks) && GoodCache(cache, blocks) && blocks != []
    ensures var o := Offer(cache, ip, node, blocks);
      o.Some? ==> o.value.Chosen? && o.value.ip == ip && Available(cache, blocks, node, ip, o.value.range)
  {
    if ip in cache {
      var infos := cache[ip];
      FreeIsApart(infos, blocks);
      if node in infos {
        assert Apart(infos);
        assert infos[node].portRanges[0] in blocks;
      }
    }
  }

  /** What is chosen was available when its IP was looked at. */
  lemma {:induction false} ChooseIsAvailable(views: seq<Cache>, ips: seq<string>, node: string, blocks: seq<PortRange>)
    requires GoodBlocks(blocks) && |views| == |ips| && GoodViews(views, blocks)
    ensures var c := Choose(views, ips, node, blocks);
      c.Chosen? ==> exists i :: 0 <= i < |ips| && c.ip == ips[i] && Available(views[i], blocks, node, c.ip, c.range)
  {
    if blocks != [] && ips != [] {
      ChooseIsAvailable(views[1..], ips[1..], node, blocks);
      OfferIsAvailable(views[0], ips[0], node, blocks);
      hide Offer, Available, GoodCache, GoodBlocks;
      var c := Choose(views[1..], ips[1..], node, blocks);
      if c.Chosen? {
        var i :| 0 <= i < |ips[1..]| && c.ip == ips[1..][i] && Available(views[1..][i], blocks, node, c.ip, c.range);
        assert c.ip == ips[i + 1] && Available(views[i + 1], blocks, node, c.ip, c.range);
      }
    }
  }

  /** The block starts in use, as the scan collects them. */
  method Seen(infos: map<string, GlobalInfo>) returns (seen: map<int, int>)
    ensures seen.Keys == SeenStarts(infos)
  {
    seen := map[];
    var todo := infos.Keys;
    while todo != {}
      invariant todo <= infos.Keys
      invariant seen.Keys == set n | n in infos && n !in todo :: infos[n].portRanges[0].start
      decreases todo
    {
      var n :| n in todo;
      seen := seen[infos[n].portRanges[0].start := infos[n].portRanges[0].end];
      todo := todo - {n};
    }
  }

  method FindFree(seen: map<int, int>, blocks: seq<PortRange>) returns (k: nat)
    ensures k <= |blocks|
    ensures FirstFree(seen.Keys, blocks) == if k < |blocks| then Some(blocks[k]) else None
  {
    k := 0;
    while k < |blocks|
      invariant k <= |blocks| && FirstFree(seen.Keys, blocks) == FirstFree(seen.Keys, blocks[k..])
    {
      assert blocks[k..][1..] == blocks[k + 1..];
      if blocks[k].start !in seen { return; }
      k := k + 1;
    }
  }

  /** allocateIpSnatPortRange. */
  method AllocateIpSnatPortRange(views: seq<Cache>, ips: seq<string>, node: string, blocks: seq<PortRange>)
    returns (ip: string, range: PortRange, ok: bool)
    requires |views| == |ips|
    ensures ok <==> Choose(views, ips, node, blocks).Chosen?
    ensures ok ==> Choose(views, ips, node, blocks) == Chosen(ip, range)
    ensures ok ==> blocks != [] && exists i :: 0 <= i < |ips| && GivenAt(views, ips, node, blocks, i, ip, range)
    ensures !ok ==> blocks == [] || forall j :: 0 <= j < |ips| ==> Skipped(views[j], ips[j], node, blocks)
  {
    hide GivenAt, Skipped;
    if blocks != [] { ChooseIs(views, ips, node, blocks); }
    if |blocks| < 1 { return "", PortRange(0, 0), false; }
    for i := 0 to |ips|
      invariant Choose(views, ips, node, blocks) == Choose(views[i..], ips[i..], node, blocks)
    {
      var cache := views[i];
      assert ips[i..][1..] == ips[i + 1..] && views[i..][1..] == views[i + 1..];
      if ips[i] !in cache {
        return ips[i], blocks[0], true;
      } else if |cache[ips[i]]| < |blocks| {
        var infos := cache[ips[i]];
        if node !in infos {
          var seen := Seen(infos);
          var k := FindFree(seen, blocks);
          if k < |blocks| { return ips[i], blocks[k], true; }
        } else {
          return infos[node].snatIp, infos[node].portRanges[0], true;
        }
      }
    }
    return "", PortRange(0, 0), false;
  }

  // ----- The other cache operations -----

  /** The entry at (ip, node) is `v`. */
  predicate Holds(cache: Cache, ip: string, node: string, v: GlobalInfo) {
    ip in cache && node in cache[ip] && cache[ip][node] == v
  }

  /** updateGlobalInfoforPolicy. */
  function Committed(cache: Cache, node: string, mac: string, policy: string, ip: string, range: PortRange): Cache {
    cache[ip := (if ip in cache then cache[ip] else map[])[node := GlobalInfo(mac, [range], ip, policy)]]
  }

  /** The node's entries on the given IPs are gone, and so is every IP that this empties. */
  function Dropped(cache: Cache, node: string, ips: set<string>): Cache {
    map ip | ip in cache && !(ip in ips && node in cache[ip] && cache[ip] - {node} == map[]) ::
      if ip in ips then cache[ip] - {node} else cache[ip]
  }

  /** clearSnatGlobalCache: stops at the first IP that is absent, and after the first hit when a node is given. */
  function Cleared(cache: Cache, ips: seq<string>, node: string): Cache {
    if ips == [] || ips[0] !in cache then cache
    else if node == "" then Cleared(cache - {ips[0]}, ips[1..], node)
    else if node in cache[ips[0]] then Dropped(cache, node, {ips[0]})
    else Cleared(cache, ips[1..], node)
  }

  /** The IP at position `j` is cached and not repeated from before. */
  predicate Fresh(cache: Cache, ips: seq<string>, j: nat)
    requires j < |ips|
  {
    ips[j] in cache && ips[j] !in ips[..j]
  }

  // What the operations do to each entry.

  lemma CommittedIs(cache: Cache, node: string, mac: string, policy: string, ip: string, range: PortRange, k: string,
                    n: string, v: GlobalInfo)
    ensures Holds(Committed(cache, node, mac, policy, ip, range), k, n, v) <==>
      if k == ip && n == node then v == GlobalInfo(mac, [range], ip, policy) else Holds(cache, k, n, v)
  {
  }

  lemma DroppedIs(cache: Cache, node: string, ips: set<string>, k: string, n: string, v: GlobalInfo)
    ensures Holds(Dropped(cache, node, ips), k, n, v) <==> Holds(cache, k, n, v) && !(n == node && k in ips)
  {
    if Holds(cache, k, n, v) && n != node { assert n in cache[k] - {node}; }
  }

  /** The node's entry at `ips[k]` is the one that a clear for the node takes. */
  predicate NodeClearedAt(cache: Cache, ips: seq<string>, node: string, k: nat)
    requires k < |ips|
  {
    ips[k] in cache && node in cache[ips[k]] && forall j :: 0 <= j < k ==> ips[j] in cache && node !in cache[ips[j]]
  }

  /** A clear for one node takes that node's first entry, unless an absent IP comes before it, and nothing else. */
  lemma {:induction false} NodeClearedIs(cache: Cache, ips: seq<string>, node: string, ip: string, n: string,
                                         v: GlobalInfo)
    requires node != ""
    ensures Holds(Cleared(cache, ips, node), ip, n, v) <==>
      Holds(cache, ip, n, v) &&
      !(n == node && exists k :: 0 <= k < |ips| && ips[k] == ip && NodeClearedAt(cache, ips, node, k))
  {
    if ips != [] && ips[0] in cache {
      if node in cache[ips[0]] {
        DroppedIs(cache, node, {ips[0]}, ip, n, v);
        assert NodeClearedAt(cache, ips, node, 0);
        assert forall k :: 0 < k < |ips| ==> !NodeClearedAt(cache, ips, node, k);
      } else {
        NodeClearedIs(cache, ips[1..], node, ip, n, v);
        NodeClearedShift(cache, ips, node, ip);
        hide NodeClearedAt;
      }
    }
  }

  lemma NodeClearedShift(cache: Cache, ips: seq<string>, node: string, ip: string)
    requires ips != [] && ips[0] in cache && node !in cache[ips[0]]
    ensures (exists k :: 0 <= k < |ips| && ips[k] == ip && NodeClearedAt(cache, ips, node, k)) <==>
      (exists k :: 0 <= k < |ips[1..]| && ips[1..][k] == ip && NodeClearedAt(cache, ips[1..], node, k))
  {
    var rest := ips[1..];
    assert forall j :: 0 <= j < |rest| ==> rest[j] == ips[j + 1];
    forall k | 0 <= k < |rest| ensures NodeClearedAt(cache, rest, node, k) <==> NodeClearedAt(cache, ips, node, k + 1) {
      if NodeClearedAt(cache, rest, node, k) {
        forall j | 0 <= j < k + 1 ensures ips[j] in cache && node !in cache[ips[j]] {
          if j > 0 { assert rest[j - 1] == ips[j]; }
        }
      }
    }
    assert !NodeClearedAt(cache, ips, node, 0);
    if k :| 0 <= k < |ips| && ips[k] == ip && NodeClearedAt(cache, ips, node, k) {
      assert rest[k - 1] == ip && NodeClearedAt(cache, rest, node, k - 1);
    }
    if k :| 0 <= k < |rest| && rest[k] == ip && NodeClearedAt(cache, rest, node, k) {
      assert ips[k + 1] == ip && NodeClearedAt(cache, ips, node, k + 1);
    }
  }

  /** Every IP up to position `k` is cached and met for the first time. */
  predicate FreshUpTo(cache: Cache, ips: seq<string>, k: nat)
    requires k < |ips|
  {
    forall j :: 0 <= j <= k ==> Fresh(cache, ips, j)
  }

  /** A whole-policy clear takes the IPs up to the first absent or repeated one, with all their entries. */
  lemma {:induction false} PolicyClearedIs(cache: Cache, ips: seq<string>, ip: string, n: string, v: GlobalInfo)
    ensures Holds(Cleared(cache, ips, ""), ip, n, v) <==>
      Holds(cache, ip, n, v) && !exists k :: 0 <= k < |ips| && ips[k] == ip && FreshUpTo(cache, ips, k)
  {
    if ips != [] {
      if ips[0] in cache {
        PolicyClearedIs(cache - {ips[0]}, ips[1..], ip, n, v);
        FreshUpToShift(cache, ips, ip);
        hide FreshUpTo;
      } else {
        forall k | 0 <= k < |ips| ensures !FreshUpTo(cache, ips, k) { assert !Fresh(cache, ips, 0); }
      }
    }
  }

  lemma FreshUpToShift(cache: Cache, ips: seq<string>, ip: string)
    requires ips != [] && ips[0] in cache
    ensures (exists k :: 0 <= k < |ips| && ips[k] == ip && FreshUpTo(cache, ips, k)) <==>
      ip == ips[0] ||
      exists k :: 0 <= k < |ips[1..]| && ips[1..][k] == ip && FreshUpTo(cache - {ips[0]}, ips[1..], k)
  {
    var c, rest := cache - {ips[0]}, ips[1..];
    assert Fresh(cache, ips, 0);
    forall j | 0 <= j < |rest| ensures Fresh(c, rest, j) <==> Fresh(cache, ips, j + 1) {
      assert ips[..j + 1] == [ips[0]] + rest[..j];
    }
    forall k | 0 <= k < |rest| ensures FreshUpTo(c, rest, k) <==> FreshUpTo(cache, ips, k + 1) {
      if FreshUpTo(c, rest, k) {
        forall j | 0 <= j <= k + 1 ensures Fresh(cache, ips, j) { if j > 0 { assert Fresh(c, rest, j - 1); } }
      }
      if FreshUpTo(cache, ips, k + 1) {
        forall j | 0 <= j <= k ensures Fresh(c, rest, j) { assert Fresh(cache, ips, j + 1); }
      }
    }
    hide Fresh;
    assert FreshUpTo(cache, ips, 0);
    if k :| 0 <= k < |ips| && ips[k] == ip && FreshUpTo(cache, ips, k) {
      if k > 0 { assert rest[k - 1] == ip && FreshUpTo(c, rest, k - 1); }
    }
    if k :| 0 <= k < |rest| && rest[k] == ip && FreshUpTo(c, rest, k) {
      assert ips[k + 1] == ip && FreshUpTo(cache, ips, k + 1);
    }
  }

  /** No absent or repeated IP precedes a cached one that is met for the first time. */
  predicate InFront(cache: Cache, ips: seq<string>) {
    forall i, j :: 0 <= i < j < |ips| && Fresh(cache, ips, j) ==> Fresh(cache, ips, i)
  }

  predicate AllGone(cache: Cache, ips: seq<string>) {
    forall ip :: ip in ips ==> ip !in cache
  }

  /**
   A whole-policy clear promises to remove all the policy's IPs. It does so exactly when no
   absent or repeated IP precedes a cached one in the list.
   */
  lemma {:induction false} ClearsAllIff(cache: Cache, ips: seq<string>)
    ensures AllGone(Cleared(cache, ips, ""), ips) <==> InFront(cache, ips)
  {
    if ips == [] {
    } else if ips[0] !in cache {
      assert !Fresh(cache, ips, 0);
      if j :| 0 < j < |ips| && Fresh(cache, ips, j) {
        assert ips[j] in ips && !InFront(cache, ips);
      }
      if exists ip :: ip in ips && ip in cache {
        var j := FirstAt(cache, ips);
        assert !InFront(cache, ips);
      }
    } else {
      var c, rest := cache - {ips[0]}, ips[1..];
      ClearsAllIff(c, rest);
      FreshShift(cache, ips);
      ClearShrinks(c, rest, "");
      assert ips == [ips[0]] + rest;
      hide Fresh, InFront;
    }
  }

  /** A policy whose first IP has no allocation keeps the allocations of its second. */
  lemma ClearStopsEarly(infos: map<string, GlobalInfo>)
    ensures var cache: Cache := map["10.0.0.2" := infos];
      Cleared(cache, ["10.0.0.1", "10.0.0.2"], "") == cache && !InFront(cache, ["10.0.0.1", "10.0.0.2"])
  {
    var cache: Cache := map["10.0.0.2" := infos];
    var ips := ["10.0.0.1", "10.0.0.2"];
    assert ips[0][7] != ips[1][7];
    assert !Fresh(cache, ips, 0) && Fresh(cache, ips, 1) by { assert ips[..1] == [ips[0]]; }
  }

  lemma FreshShift(cache: Cache, ips: seq<string>)
    requires ips != [] && ips[0] in cache
    ensures InFront(cache, ips) <==> InFront(cache - {ips[0]}, ips[1..])
  {
    var c, rest := cache - {ips[0]}, ips[1..];
    assert Fresh(cache, ips, 0);
    forall j | 0 <= j < |rest| ensures Fresh(c, rest, j) <==> Fresh(cache, ips, j + 1) {
      assert ips[..j + 1] == [ips[0]] + rest[..j];
    }
    hide Fresh;
    if InFront(c, rest) {
      forall i, j | 0 <= i < j < |ips| && Fresh(cache, ips, j) ensures Fresh(cache, ips, i) {
        if i > 0 {
          assert Fresh(c, rest, j - 1) <==> Fresh(cache, ips, j - 1 + 1);
          assert Fresh(c, rest, i - 1) <==> Fresh(cache, ips, i - 1 + 1);
        }
      }
    }
    if InFront(cache, ips) {
      forall i, j | 0 <= i < j < |rest| && Fresh(c, rest, j) ensures Fresh(c, rest, i) {
        assert Fresh(cache, ips, j + 1) && Fresh(cache, ips, i + 1);
      }
    }
  }

  lemma {:induction false} FirstAt(cache: Cache, ips: seq<string>) returns (j: nat)
    requires exists ip :: ip in ips && ip in cache
    ensures j < |ips| && Fresh(cache, ips, j)
  {
    if ips[0] in cache {
      j := 0;
    } else {
      assert ips == [ips[0]] + ips[1..];
      var k := FirstAt(cache, ips[1..]);
      j := k + 1;
      assert ips[..j] == [ips[0]] + ips[1..][..k];
    }
  }

  /** Deletes and clears only take entries away. */
  predicate Shrinks(cache: Cache, cache': Cache) {
    forall ip :: ip in cache' ==>
      && ip in cache && cache'[ip] != map[]
      && forall n :: n in cache'[ip] ==> n in cache[ip] && cache'[ip][n] == cache[ip][n]
  }

  lemma DropShrinks(cache: Cache, node: string, ips: set<string>)
    requires forall ip :: ip in cache ==> cache[ip] != map[]
    ensures Shrinks(cache, Dropped(cache, node, ips))
  {
    var cache' := Dropped(cache, node, ips);
    forall ip | ip in cache' ensures cache'[ip] != map[] {
      if ip in ips && node !in cache[ip] { assert cache[ip] - {node} == cache[ip]; }
    }
  }

  lemma {:induction false} ClearShrinks(cache: Cache, ips: seq<string>, node: string)
    ensures Cleared(cache, ips, node).Keys <= cache.Keys
    ensures (forall ip :: ip in cache ==> cache[ip] != map[]) ==> Shrinks(cache, Cleared(cache, ips, node))
    decreases |ips|
  {
    if ips != [] && ips[0] in cache {
      if node == "" {
        ClearShrinks(cache - {ips[0]}, ips[1..], node);
      } else if node in cache[ips[0]] {
        if forall ip :: ip in cache ==> cache[ip] != map[] { DropShrinks(cache, node, {ips[0]}); }
      } else {
        ClearShrinks(cache, ips[1..], node);
      }
    }
  }

  lemma ShrinkKeeps(cache: Cache, cache': Cache, blocks: seq<PortRange>)
    requires GoodCache(cache, blocks) && Shrinks(cache, cache')
    ensures GoodCache(cache', blocks)
    ensures forall node, ip, range :: Available(cache, blocks, node, ip, range) ==>
      Available(cache', blocks, node, ip, range)
  {
    forall ip | ip in cache' ensures Apart(cache'[ip]) && GoodEntries(cache'[ip], blocks) {
      assert Apart(cache[ip]) && GoodEntries(cache[ip], blocks);
    }
  }

  lemma CommitKeeps(cache: Cache, blocks: seq<PortRange>, node: string, mac: string, policy: string, ip: string,
                    range: PortRange)
    requires GoodCache(cache, blocks) && Available(cache, blocks, node, ip, range)
    ensures GoodCache(Committed(cache, node, mac, policy, ip, range), blocks)
  {
    var cache' := Committed(cache, node, mac, policy, ip, range);
    var infos := cache'[ip];
    assert node in infos;
    forall n, m | n in infos && m in infos && n != m
      ensures Disjoint(infos[n].portRanges[0], infos[m].portRanges[0])
    {
      if ip in cache { assert Apart(cache[ip]) && GoodEntries(cache[ip], blocks); }
    }
    forall k | k in cache' && k != ip ensures cache'[k] == cache[k] {}
  }

  // ----- Saving per node and rebuilding per IP -----

  ghost predicate HeldIn(cache: Cache, ips: set<string>, n: string, v: GlobalInfo) {
    exists ip :: ip in ips && Holds(cache, ip, n, v)
  }

  ghost predicate SavedFrom(cache: Cache, ips: set<string>, saved: map<string, seq<GlobalInfo>>) {
    forall n, v :: (n in saved && v in saved[n]) <==> HeldIn(cache, ips, n, v)
  }

  /** The custom resource written by syncSnatGlobalInfo, in whatever order the maps are walked. */
  ghost predicate IsSaved(cache: Cache, saved: map<string, seq<GlobalInfo>>) {
    SavedFrom(cache, cache.Keys, saved)
  }

  function NodeOf(macs: map<string, string>, v: GlobalInfo): string {
    if v.mac in macs then macs[v.mac] else ""
  }

  /** What createGlobalInfoCache leaves: each slot holds one of the saved entries that belong there. */
  ghost predicate IsRebuilt(saved: map<string, seq<GlobalInfo>>, macs: map<string, string>, cache: Cache) {
    && (forall n, v :: n in saved && v in saved[n] ==> v.snatIp in cache && NodeOf(macs, v) in cache[v.snatIp])
    && (forall ip, n, v :: Holds(cache, ip, n, v) ==>
          ip == v.snatIp && n == NodeOf(macs, v) && exists m :: m in saved && v in saved[m])
    && (forall ip :: ip in cache ==> cache[ip] != map[])
  }

  /**
   A restart restores the cache exactly when the MAC table maps every entry's MAC to the node that holds the
   entry.
   */
  lemma RebuildIsIdentity(cache: Cache, saved: map<string, seq<GlobalInfo>>, macs: map<string, string>, cache': Cache)
    requires forall ip :: ip in cache ==> cache[ip] != map[]
    requires forall ip, n, v :: Holds(cache, ip, n, v) ==> v.snatIp == ip
    requires IsSaved(cache, saved) && IsRebuilt(saved, macs, cache')
    ensures cache' == cache <==> forall ip, n, v :: Holds(cache, ip, n, v) ==> NodeOf(macs, v) == n
  {
    if forall ip, n, v :: Holds(cache, ip, n, v) ==> NodeOf(macs, v) == n {
      forall ip, n, v ensures Holds(cache', ip, n, v) <==> Holds(cache, ip, n, v) {
        RebuiltEntry(cache, saved, macs, cache', ip, n, v);
      }
      SameEntries(cache, cache');
    }
  }

  /** A node without NodeInfo at start-up: its entry is rebuilt under the empty node name. */
  lemma UnknownMacMovesEntry(node: string, v: GlobalInfo)
    requires node != ""
    ensures var cache, cache' := map[v.snatIp := map[node := v]], map[v.snatIp := map["" := v]];
      IsSaved(cache, map[node := [v]]) && IsRebuilt(map[node := [v]], map[], cache') && cache' != cache
  {
    var saved: map<string, seq<GlobalInfo>> := map[node := [v]];
    var cache: Cache := map[v.snatIp := map[node := v]];
    var cache': Cache := map[v.snatIp := map["" := v]];
    forall n, u ensures (n in saved && u in saved[n]) <==> HeldIn(cache, cache.Keys, n, u) {
      if n == node && u == v { assert v.snatIp in cache.Keys && Holds(cache, v.snatIp, n, u); }
    }
    assert node in saved && v in saved[node] && NodeOf(map[], v) == "";
    assert "" in cache'[v.snatIp] && "" !in cache[v.snatIp];
  }

  lemma RebuiltEntry(cache: Cache, saved: map<string, seq<GlobalInfo>>, macs: map<string, string>, cache': Cache,
                     ip: string, n: string, v: GlobalInfo)
    requires forall ip, n, v :: Holds(cache, ip, n, v) ==> v.snatIp == ip && NodeOf(macs, v) == n
    requires IsSaved(cache, saved) && IsRebuilt(saved, macs, cache')
    ensures Holds(cache', ip, n, v) <==> Holds(cache, ip, n, v)
  {
    hide NodeOf;
    forall u | Holds(cache', ip, n, u) ensures Holds(cache, ip, n, u) {
      var m :| m in saved && u in saved[m];
      assert HeldIn(cache, cache.Keys, m, u);
      var k :| Holds(cache, k, m, u);
    }
    if Holds(cache, ip, n, v) {
      assert HeldIn(cache, cache.Keys, n, v);
      assert n in saved && v in saved[n];
      assert Holds(cache', ip, n, cache'[ip][n]);
    }
  }

  lemma SameEntries(a: Cache, b: Cache)
    requires forall ip, n, v :: Holds(a, ip, n, v) <==> Holds(b, ip, n, v)
    requires forall ip :: ip in a ==> a[ip] != map[]
    requires forall ip :: ip in b ==> b[ip] != map[]
    ensures a == b
  {
    SameEntriesAt(a, b);
    SameEntriesAt(b, a);
    assert a.Keys == b.Keys;
    forall ip | ip in a ensures a[ip] == b[ip] { assert a[ip].Keys == b[ip].Keys; }
  }

  lemma SameEntriesAt(a: Cache, b: Cache)
    requires forall ip, n, v :: Holds(a, ip, n, v) ==> Holds(b, ip, n, v)
    requires forall ip :: ip in a ==> a[ip] != map[]
    ensures forall ip :: ip in a ==> ip in b && forall n :: n in a[ip] ==> n in b[ip] && b[ip][n] == a[ip][n]
  {
    forall ip, n | ip in a && n in a[ip] ensures ip in b && n in b[ip] && b[ip][n] == a[ip][n] {
      assert Holds(a, ip, n, a[ip][n]);
    }
    forall ip | ip in a ensures ip in b {
      var n :| n in a[ip];
      assert Holds(a, ip, n, a[ip][n]);
    }
  }

  /** Whatever the MAC table says, a rebuilt cache is as good as the one that was saved. */
  lemma RebuiltIsGood(cache: Cache, saved: map<string, seq<GlobalInfo>>, macs: map<string, string>, cache': Cache,
                      blocks: seq<PortRange>)
    requires GoodCache(cache, blocks) && IsSaved(cache, saved) && IsRebuilt(saved, macs, cache')
    ensures GoodCache(cache', blocks)
  {
    forall ip, n, v | Holds(cache', ip, n, v)
      ensures v.snatIp == ip && v.portRanges[0] in blocks && exists m :: Holds(cache, ip, m, v)
    {
      RebuiltFrom(cache, saved, macs, cache', blocks, ip, n, v);
    }
    forall ip | ip in cache'
      ensures GoodEntries(cache'[ip], blocks) && Apart(cache'[ip])
      ensures forall n :: n in cache'[ip] ==> cache'[ip][n].snatIp == ip
    {
      forall n | n in cache'[ip] ensures cache'[ip][n].portRanges[0] in blocks && cache'[ip][n].snatIp == ip {
        assert Holds(cache', ip, n, cache'[ip][n]);
      }
      forall n, m | n in cache'[ip] && m in cache'[ip] && n != m
        ensures Disjoint(cache'[ip][n].portRanges[0], cache'[ip][m].portRanges[0])
      {
        RebuiltApart(cache, saved, macs, cache', blocks, ip, n, m);
      }
    }
  }

  lemma EntryIs(cache: Cache, blocks: seq<PortRange>, ip: string, n: string, v: GlobalInfo)
    requires GoodCache(cache, blocks) && Holds(cache, ip, n, v)
    ensures v.snatIp == ip && v.portRanges[0] in blocks
  {
    assert GoodEntries(cache[ip], blocks);
  }

  lemma RebuiltFrom(cache: Cache, saved: map<string, seq<GlobalInfo>>, macs: map<string, string>, cache': Cache,
                    blocks: seq<PortRange>, ip: string, n: string, v: GlobalInfo)
    requires GoodCache(cache, blocks) && IsSaved(cache, saved)
    requires IsRebuilt(saved, macs, cache') && Holds(cache', ip, n, v)
    ensures v.snatIp == ip && v.portRanges[0] in blocks && exists m :: Holds(cache, ip, m, v)
  {
    assert ip == v.snatIp;
    var name :| name in saved && v in saved[name];
    hide IsRebuilt, GoodCache, NodeOf;
    assert HeldIn(cache, cache.Keys, name, v);
    var k :| k in cache.Keys && Holds(cache, k, name, v);
    EntryIs(cache, blocks, k, name, v);
  }

  lemma RebuiltApart(cache: Cache, saved: map<string, seq<GlobalInfo>>, macs: map<string, string>, cache': Cache,
                     blocks: seq<PortRange>, ip: string, n: string, m: string)
    requires GoodCache(cache, blocks) && IsSaved(cache, saved) && IsRebuilt(saved, macs, cache')
    requires ip in cache' && n in cache'[ip] && m in cache'[ip] && n != m
    ensures Disjoint(cache'[ip][n].portRanges[0], cache'[ip][m].portRanges[0])
  {
    var v, w := cache'[ip][n], cache'[ip][m];
    assert Holds(cache', ip, n, v) && Holds(cache', ip, m, w);
    assert n == NodeOf(macs, v) && m == NodeOf(macs, w);
    RebuiltFrom(cache, saved, macs, cache', blocks, ip, n, v);
    RebuiltFrom(cache, saved, macs, cache', blocks, ip, m, w);
    var a :| Holds(cache, ip, a, v);
    var b :| Holds(cache, ip, b, w);
    assert a != b && Apart(cache[ip]);
  }

  // ----- Runs: choose and commit in separate lock sections, with deletes in between, saves and restarts -----

  datatype Hand = Empty | Holding(node: string, ip: string, range: PortRange)

  /** The cache, the choice in a worker's hand, and the cache as it was last saved. */
  datatype State = State(cache: Cache, hand: Hand, stored: Cache)

  datatype Step =
    | ChooseOn(ip: string, node: string)               // one lock section of allocateIpSnatPortRange
    | Commit(mac: string, policy: string)              // updateGlobalInfoforPolicy
    | DropNode(node: string, ips: set<string>)         // deleteNodeinfoFromGlInfoCache, up to where it got
    | ClearPolicy(list: seq<string>, node: string)     // clearSnatGlobalCache
    | Store                                            // syncSnatGlobalInfo
    | Restart(saved: map<string, seq<GlobalInfo>>, macs: map<string, string>, rebuilt: Cache)  // createGlobalInfoCache

  predicate GoodState(s: State, blocks: seq<PortRange>) {
    && GoodCache(s.cache, blocks) && GoodCache(s.stored, blocks)
    && (s.hand.Holding? ==> Available(s.cache, blocks, s.hand.node, s.hand.ip, s.hand.range))
  }

  ghost predicate Enabled(s: State, st: Step) {
    match st
    case ChooseOn(_, _) => s.hand.Empty?
    case Commit(_, _) => s.hand.Holding?
    case Restart(saved, macs, rebuilt) => IsSaved(s.stored, saved) && IsRebuilt(saved, macs, rebuilt)
    case _ => true
  }

  ghost function Do(s: State, st: Step, blocks: seq<PortRange>): State
    requires Enabled(s, st)
  {
    match st
    case ChooseOn(ip, node) =>
      (match Choose([s.cache], [ip], node, blocks)
       case Failed => s
       case Chosen(k, r) => s.(hand := Holding(node, k, r)))
    case Commit(mac, policy) =>
      s.(cache := Committed(s.cache, s.hand.node, mac, policy, s.hand.ip, s.hand.range), hand := Empty)
    case DropNode(node, ips) => s.(cache := Dropped(s.cache, node, ips))
    case ClearPolicy(ips, node) => s.(cache := Cleared(s.cache, ips, node))
    case Store => s.(stored := s.cache)
    case Restart(_, _, rebuilt) => s.(cache := rebuilt, hand := Empty)
  }

  lemma StepKeeps(s: State, st: Step, blocks: seq<PortRange>)
    requires GoodBlocks(blocks) && GoodState(s, blocks) && Enabled(s, st)
    ensures GoodState(Do(s, st, blocks), blocks)
  {
    match st
    case ChooseOn(ip, node) => ChooseIsAvailable([s.cache], [ip], node, blocks);
    case Commit(mac, policy) =>
      CommitKeeps(s.cache, blocks, s.hand.node, mac, policy, s.hand.ip, s.hand.range);
    case DropNode(node, ips) =>
      DropShrinks(s.cache, node, ips);
      ShrinkKeeps(s.cache, Dropped(s.cache, node, ips), blocks);
    case ClearPolicy(ips, node) =>
      ClearShrinks(s.cache, ips, node);
      ShrinkKeeps(s.cache, Cleared(s.cache, ips, node), blocks);
    case Store =>
    case Restart(saved, macs, rebuilt) => RebuiltIsGood(s.stored, saved, macs, rebuilt, blocks);
  }

  ghost predicate IsRun(states: seq<State>, steps: seq<Step>, blocks: seq<PortRange>) {
    && |states| == |steps| + 1 && states[0] == State(map[], Empty, map[])
    && forall i :: 0 <= i < |steps| ==> Enabled(states[i], steps[i]) && states[i + 1] == Do(states[i], steps[i], blocks)
  }

  lemma {:induction false} RunIsGood(states: seq<State>, steps: seq<Step>, blocks: seq<PortRange>, i: nat)
    requires GoodBlocks(blocks) && IsRun(states, steps, blocks) && i <= |steps|
    ensures GoodState(states[i], blocks)
  {
    if i > 0 {
      RunIsGood(states, steps, blocks, i - 1);
      StepKeeps(states[i - 1], steps[i - 1], blocks);
    }
  }

  /** In every state of every run, nodes that share a SNAT IP hold disjoint blocks of the list. */
  lemma RunIsDisjoint(states: seq<State>, steps: seq<Step>, blocks: seq<PortRange>, i: nat)
    requires GoodBlocks(blocks) && IsRun(states, steps, blocks) && i <= |steps|
    ensures GoodState(states[i], blocks)
    ensures forall ip, n, m :: ip in states[i].cache && n in states[i].cache[ip] && m in states[i].cache[ip] ==>
      n != m ==> Disjoint(states[i].cache[ip][n].portRanges[0], states[i].cache[ip][m].portRanges[0])
  {
    RunIsGood(states, steps, blocks, i);
  }

  /** The node has this range on the IP. */
  predicate HasRange(cache: Cache, ip: string, node: string, range: PortRange) {
    ip in cache && node in cache[ip] && cache[ip][node].portRanges[0] == range
  }

  /** A choice in hand is not at odds with what the node has there. */
  predicate HandAgrees(s: State) {
    s.hand.Holding? && s.hand.ip in s.cache && s.hand.node in s.cache[s.hand.ip] ==>
      HasRange(s.cache, s.hand.ip, s.hand.node, s.hand.range)
  }

  /** The step may take the node's entry on the IP away. */
  predicate Takes(st: Step, ip: string, node: string) {
    match st
    case DropNode(n, ips) => n == node && ip in ips
    case ClearPolicy(list, n) => ip in list && (n == "" || n == node)
    case Restart(_, _, _) => true
    case _ => false
  }

  lemma ChooseOne(cache: Cache, ip: string, node: string, blocks: seq<PortRange>)
    requires GoodCache(cache, blocks)
    ensures var c := Choose([cache], [ip], node, blocks);
      c.Chosen? && ip in cache && node in cache[ip] ==> c == Chosen(ip, cache[ip][node].portRanges[0])
  {
    if blocks != [] {
      ChooseIs([cache], [ip], node, blocks);
      var c := Choose([cache], [ip], node, blocks);
      hide Choose, Skipped;
      if c.Chosen? {
        var i :| 0 <= i < |[ip]| && GivenAt([cache], [ip], node, blocks, i, c.ip, c.range);
        assert [cache][i] == cache && [ip][i] == ip;
      }
    }
  }

  lemma ChosenWhere(cache: Cache, ip: string, node: string, blocks: seq<PortRange>)
    requires GoodBlocks(blocks) && GoodCache(cache, blocks)
    ensures var c := Choose([cache], [ip], node, blocks); c.Chosen? ==> c.ip == ip
  {
    ChooseIsAvailable([cache], [ip], node, blocks);
  }

  lemma HandStep(s: State, st: Step, blocks: seq<PortRange>)
    requires GoodBlocks(blocks) && GoodState(s, blocks) && Enabled(s, st) && HandAgrees(s)
    ensures HandAgrees(Do(s, st, blocks))
  {
    match st
    case ChooseOn(ip, node) =>
      ChooseOne(s.cache, ip, node, blocks);
      ChosenWhere(s.cache, ip, node, blocks);
      hide Choose;
    case Commit(mac, policy) =>
    case DropNode(node, ips) => DropShrinks(s.cache, node, ips); hide Dropped;
    case ClearPolicy(ips, node) => ClearShrinks(s.cache, ips, node); hide Cleared;
    case Store =>
    case Restart(saved, macs, rebuilt) =>
  }

  lemma DropKeepsRange(cache: Cache, n: string, ips: set<string>, ip: string, node: string, range: PortRange)
    requires HasRange(cache, ip, node, range)
    ensures var t := Dropped(cache, n, ips);
      if HasEntry(t, ip, node) then HasRange(t, ip, node, range) else n == node && ip in ips
  {
    var t := Dropped(cache, n, ips);
    DroppedIs(cache, n, ips, ip, node, cache[ip][node]);
    if HasEntry(t, ip, node) { DroppedIs(cache, n, ips, ip, node, t[ip][node]); }
    hide Dropped;
  }

  lemma ClearKeepsRange(cache: Cache, list: seq<string>, n: string, ip: string, node: string, range: PortRange)
    requires HasRange(cache, ip, node, range)
    ensures var t := Cleared(cache, list, n);
      if HasEntry(t, ip, node) then HasRange(t, ip, node, range) else ip in list && (n == "" || n == node)
  {
    var t := Cleared(cache, list, n);
    ClearedEntry(cache, list, n, ip, node, cache[ip][node]);
    if HasEntry(t, ip, node) { ClearedEntry(cache, list, n, ip, node, t[ip][node]); }
    hide Cleared;
  }

  lemma ClearedEntry(cache: Cache, list: seq<string>, n: string, ip: string, node: string, v: GlobalInfo)
    ensures Holds(Cleared(cache, list, n), ip, node, v) ==> Holds(cache, ip, node, v)
    ensures Holds(cache, ip, node, v) && !Holds(Cleared(cache, list, n), ip, node, v) ==>
      ip in list && (n == "" || n == node)
  {
    if n == "" { PolicyClearedIs(cache, list, ip, node, v); } else { NodeClearedIs(cache, list, n, ip, node, v); }
    hide Cleared;
  }

  predicate HasEntry(cache: Cache, ip: string, node: string) {
    ip in cache && node in cache[ip]
  }

  lemma CommitKeepsRange(s: State, mac: string, policy: string, ip: string, node: string, range: PortRange)
    requires s.hand.Holding? && HandAgrees(s) && HasRange(s.cache, ip, node, range)
    ensures HasRange(Committed(s.cache, s.hand.node, mac, policy, s.hand.ip, s.hand.range), ip, node, range)
  {
  }

  /** A step leaves a node's range on an IP alone, or takes the entry away. */
  lemma RangeStep(s: State, st: Step, blocks: seq<PortRange>, ip: string, node: string, range: PortRange)
    requires Enabled(s, st) && HandAgrees(s) && HasRange(s.cache, ip, node, range)
    ensures !st.Restart? && HasEntry(Do(s, st, blocks).cache, ip, node) ==>
      HasRange(Do(s, st, blocks).cache, ip, node, range)
    ensures !HasEntry(Do(s, st, blocks).cache, ip, node) ==> Takes(st, ip, node)
  {
    assert HasEntry(s.cache, ip, node);
    assert HasRange(Do(s, st, blocks).cache, ip, node, range) ==> HasEntry(Do(s, st, blocks).cache, ip, node);
    match st
    case ChooseOn(_, _) => hide Choose, HasRange, HasEntry;
    case Commit(mac, policy) => CommitKeepsRange(s, mac, policy, ip, node, range); hide Committed, HasRange, HasEntry;
    case DropNode(n, ips) => DropKeepsRange(s.cache, n, ips, ip, node, range); hide Dropped, HasRange, HasEntry;
    case ClearPolicy(ips, n) => ClearKeepsRange(s.cache, ips, n, ip, node, range); hide Cleared, HasRange, HasEntry;
    case Store =>
    case Restart(_, _, _) =>
  }

  lemma RunAt(states: seq<State>, steps: seq<Step>, blocks: seq<PortRange>, i: nat)
    requires IsRun(states, steps, blocks)
    ensures |states| == |steps| + 1
    ensures i < |steps| ==> Enabled(states[i], steps[i]) && states[i + 1] == Do(states[i], steps[i], blocks)
  {
    hide Enabled, Do;
  }

  lemma {:induction false} HandInRun(states: seq<State>, steps: seq<Step>, blocks: seq<PortRange>, i: nat)
    requires GoodBlocks(blocks) && IsRun(states, steps, blocks) && i <= |steps|
    ensures HandAgrees(states[i])
  {
    if i > 0 {
      HandInRun(states, steps, blocks, i - 1);
      RunIsGood(states, steps, blocks, i - 1);
      HandStep(states[i - 1], steps[i - 1], blocks);
    }
  }

  /** The entry outlives the step, and the step is no restart. */
  ghost predicate Survives(states: seq<State>, steps: seq<Step>, k: nat, ip: string, node: string)
    requires k < |steps| < |states|
  {
    !steps[k].Restart? && (HasEntry(states[k + 1].cache, ip, node) || !Takes(steps[k], ip, node))
  }

  /**
   A node keeps its range on an IP until a restart, or until a step that is meant to takes the entry away: as long
   as the entry is there, the range is the same.
   */
  lemma {:induction false} RangeIsKept(states: seq<State>, steps: seq<Step>, blocks: seq<PortRange>, i: nat, j: nat,
                                       ip: string, node: string, range: PortRange)
    requires GoodBlocks(blocks) && IsRun(states, steps, blocks) && i <= j <= |steps|
    requires HasRange(states[i].cache, ip, node, range)
    requires forall k :: i <= k < j ==> Survives(states, steps, k, ip, node)
    ensures HasRange(states[j].cache, ip, node, range)
    decreases j
  {
    hide *;
    RunAt(states, steps, blocks, j);
    if i < j {
      RunAt(states, steps, blocks, j - 1);
      RangeIsKept(states, steps, blocks, i, j - 1, ip, node, range);
      HandInRun(states, steps, blocks, j - 1);
      RangeSurvives(states, steps, blocks, j - 1, ip, node, range);
    }
  }

  lemma RangeSurvives(states: seq<State>, steps: seq<Step>, blocks: seq<PortRange>, k: nat, ip: string, node: string,
                      range: PortRange)
    requires k < |steps| < |states| && Enabled(states[k], steps[k]) && states[k + 1] == Do(states[k], steps[k], blocks)
    requires HandAgrees(states[k]) && HasRange(states[k].cache, ip, node, range)
    requires Survives(states, steps, k, ip, node)
    ensures HasRange(states[k + 1].cache, ip, node, range)
  {
    hide Do, Enabled, HandAgrees, HasRange, HasEntry, Takes;
    RangeStep(states[k], steps[k], blocks, ip, node, range);
  }

  /** What was chosen is what the node gets, if it is committed. */
  lemma CommitTakes(s: State, mac: string, policy: string, blocks: seq<PortRange>)
    requires Enabled(s, Commit(mac, policy))
    ensures Holds(Do(s, Commit(mac, policy), blocks).cache, s.hand.ip, s.hand.node,
                  GlobalInfo(mac, [s.hand.range], s.hand.ip, policy))
  {
    CommittedIs(s.cache, s.hand.node, mac, policy, s.hand.ip, s.hand.range, s.hand.ip, s.hand.node,
                GlobalInfo(mac, [s.hand.range], s.hand.ip, policy));
  }

  lemma {:induction false} StoredSince(states: seq<State>, steps: seq<Step>, blocks: seq<PortRange>, i: nat, j: nat)
    requires IsRun(states, steps, blocks) && i < j <= |steps| && steps[i].Store?
    requires forall k :: i < k < j ==> !steps[k].Store?
    ensures states[j].stored == states[i].cache
    decreases j
  {
    if i + 1 < j { StoredSince(states, steps, blocks, i, j - 1); }
    hide Choose, Committed, Dropped, Cleared, IsSaved, IsRebuilt;
  }

  /** A restart brings the cache back as it was last saved, if the MAC table knows every node of that cache. */
  lemma RestartRestores(states: seq<State>, steps: seq<Step>, blocks: seq<PortRange>, i: nat, j: nat)
    requires GoodBlocks(blocks) && IsRun(states, steps, blocks) && i < j < |steps|
    requires steps[i].Store? && (forall k :: i < k < j ==> !steps[k].Store?) && steps[j].Restart?
    ensures states[j + 1].cache == states[i].cache <==>
      forall ip, n, v :: Holds(states[i].cache, ip, n, v) ==> NodeOf(steps[j].macs, v) == n
  {
    StoredSince(states, steps, blocks, i, j);
    RunIsGood(states, steps, blocks, i);
    var cache := states[i].cache;
    assert forall ip, n, v :: Holds(cache, ip, n, v) ==> v.snatIp == ip;
    assert Enabled(states[j], steps[j]) && states[j + 1] == Do(states[j], steps[j], blocks);
    RebuildIsIdentity(cache, steps[j].saved, steps[j].macs, steps[j].rebuilt);
  }

  /** The controller's SNAT state. */
  class Controller {
    var cache: Cache

    constructor ()
      ensures cache == map[]
    {
      cache := map[];
    }

    method UpdateGlobalInfo(range: PortRange, ip: string, node: string, mac: string, policy: string)
      modifies this
      ensures cache == Committed(old(cache), node, mac, policy, ip, range)
    {
      if ip !in cache { cache := cache[ip := map[]]; }
      cache := cache[ip := cache[ip][node := GlobalInfo(mac, [range], ip, policy)]];
      assert cache == Committed(old(cache), node, mac, policy, ip, range);
    }

    /**
     deleteNodeinfoFromGlInfoCache. `stuck` are the exhausted policies whose status update fails; it gives
     up at the first.
     */
    method DeleteNode(names: set<string>, node: string, stuck: set<string>)
      returns (requeue: bool, ghost done: set<string>)
      modifies this
      ensures cache == Dropped(old(cache), node, done)
      ensures requeue <==>
        || (exists ip :: ip in old(cache) && node in old(cache)[ip] && old(cache)[ip][node].policy in stuck)
        || (exists name :: name in names && name in stuck)
      ensures !requeue ==> forall ip :: ip in cache ==> node !in cache[ip]
    {
      done := {};
      var todo := cache.Keys;
      assert cache == Dropped(cache, node, {});
      while todo != {}
        invariant todo <= old(cache).Keys && done == old(cache).Keys - todo
        invariant cache == Dropped(old(cache), node, done)
        invariant forall ip :: ip in done && node in old(cache)[ip] ==> old(cache)[ip][node].policy !in stuck
        decreases todo
      {
        var ip :| ip in todo;
        assert cache[ip] == old(cache)[ip];
        if node in cache[ip] {
          if cache[ip][node].policy in stuck { return true, done; }
          var rest := cache[ip] - {node};
          cache := if rest == map[] then cache - {ip} else cache[ip := rest];
        } else {
          assert cache[ip] - {node} == cache[ip];
        }
        todo, done := todo - {ip}, done + {ip};
        assert cache == Dropped(old(cache), node, done);
      }
      requeue := exists name :: name in names && name in stuck;
    }

    method ClearSnatGlobalCache(ips: seq<string>, node: string)
      modifies this
      ensures cache == Cleared(old(cache), ips, node)
    {
      for i := 0 to |ips|
        invariant Cleared(old(cache), ips, node) == Cleared(cache, ips[i..], node)
      {
        assert ips[i..][1..] == ips[i + 1..];
        if ips[i] !in cache { return; }
        if |node| > 0 {
          if node in cache[ips[i]] {
            var rest := cache[ips[i]] - {node};
            ghost var before := cache;
            cache := if rest == map[] then cache - {ips[i]} else cache[ips[i] := rest];
            assert cache == Dropped(before, node, {ips[i]});
            return;
          }
        } else {
          cache := cache - {ips[i]};
        }
      }
    }

    /** The transposition in syncSnatGlobalInfo. */
    method Save() returns (saved: map<string, seq<GlobalInfo>>)
      ensures IsSaved(cache, saved)
    {
      saved := map[];
      var ips := cache.Keys;
      while ips != {}
        invariant ips <= cache.Keys
        invariant SavedFrom(cache, cache.Keys - ips, saved)
        decreases ips
      {
        var ip :| ip in ips;
        ghost var before := saved;
        var nodes := cache[ip].Keys;
        while nodes != {}
          invariant nodes <= cache[ip].Keys
          invariant forall n, v :: (n in saved && v in saved[n]) <==>
            (n in before && v in before[n]) || (n !in nodes && Holds(cache, ip, n, v))
          decreases nodes
        {
          var n :| n in nodes;
          saved := saved[n := (if n in saved then saved[n] else []) + [cache[ip][n]]];
          nodes := nodes - {n};
        }
        SavedOne(cache, cache.Keys - ips, ip, before, saved);
        assert (cache.Keys - ips) + {ip} == cache.Keys - (ips - {ip});
        ips := ips - {ip};
      }
      assert cache.Keys - ips == cache.Keys;
    }

    /** The rebuild loop of createGlobalInfoCache, at start-up. */
    method Rebuild(saved: map<string, seq<GlobalInfo>>, macs: map<string, string>)
      requires cache == map[]
      modifies this
      ensures IsRebuilt(saved, macs, cache)
    {
      var names := saved.Keys;
      while names != {}
        invariant names <= saved.Keys
        invariant PartlyRebuilt(saved, macs, saved.Keys - names, "", 0, cache)
        decreases names
      {
        var name :| name in names;
        for i := 0 to |saved[name]|
          invariant PartlyRebuilt(saved, macs, saved.Keys - names, name, i, cache)
        {
          var v := saved[name][i];
          var node := NodeOf(macs, v);
          ghost var before := cache;
          if v.snatIp !in cache { cache := cache[v.snatIp := map[]]; }
          cache := cache[v.snatIp := cache[v.snatIp][node := v]];
          Placed(saved, macs, saved.Keys - names, name, i, before, cache);
        }
        FinishedName(saved, macs, saved.Keys - names, name, cache);
        assert saved.Keys - (names - {name}) == (saved.Keys - names) + {name};
        names := names - {name};
      }
      assert saved.Keys - names == saved.Keys;
    }
  }

  lemma SavedOne(cache: Cache, ips: set<string>, ip: string, before: map<string, seq<GlobalInfo>>,
                 saved: map<string, seq<GlobalInfo>>)
    requires SavedFrom(cache, ips, before)
    requires forall n, v :: (n in saved && v in saved[n]) <==> (n in before && v in before[n]) || Holds(cache, ip, n, v)
    ensures SavedFrom(cache, ips + {ip}, saved)
  {
    forall n, v ensures HeldIn(cache, ips + {ip}, n, v) <==> HeldIn(cache, ips, n, v) || Holds(cache, ip, n, v) {
      if HeldIn(cache, ips, n, v) {
        var k :| k in ips && Holds(cache, k, n, v);
        assert k in ips + {ip};
      }
      if Holds(cache, ip, n, v) { assert ip in ips + {ip}; }
    }
  }

  /** Rebuilt from the names in `done` and the first `i` entries of `name`. */
  ghost predicate PartlyRebuilt(saved: map<string, seq<GlobalInfo>>, macs: map<string, string>, done: set<string>,
                                name: string, i: nat, cache: Cache)
  {
    && (name in saved ==> i <= |saved[name]|) && (name !in saved ==> i == 0)
    && (forall n, k :: n in saved && 0 <= k < |saved[n]| && (n in done || (n == name && k < i)) ==>
          saved[n][k].snatIp in cache && NodeOf(macs, saved[n][k]) in cache[saved[n][k].snatIp])
    && (forall ip, n, v :: Holds(cache, ip, n, v) ==>
          ip == v.snatIp && n == NodeOf(macs, v) && exists m :: m in saved && v in saved[m])
    && (forall ip :: ip in cache ==> cache[ip] != map[])
  }

  lemma Placed(saved: map<string, seq<GlobalInfo>>, macs: map<string, string>, done: set<string>, name: string, i: nat,
               cache: Cache, cache': Cache)
    requires name in saved && i < |saved[name]| && PartlyRebuilt(saved, macs, done, name, i, cache)
    requires var v := saved[name][i];
      cache' == cache[v.snatIp := (if v.snatIp in cache then cache[v.snatIp] else map[])[NodeOf(macs, v) := v]]
    ensures PartlyRebuilt(saved, macs, done, name, i + 1, cache')
  {
    var v := saved[name][i];
    forall ip, n, u | Holds(cache', ip, n, u)
      ensures ip == u.snatIp && n == NodeOf(macs, u) && exists m :: m in saved && u in saved[m]
    {
      if ip == v.snatIp && n == NodeOf(macs, v) {
        assert u == v && v in saved[name];
      } else {
        assert Holds(cache, ip, n, u);
      }
    }
    assert NodeOf(macs, v) in cache'[v.snatIp];
  }

  lemma FinishedName(saved: map<string, seq<GlobalInfo>>, macs: map<string, string>, done: set<string>, name: string,
                     cache: Cache)
    requires name in saved && PartlyRebuilt(saved, macs, done, name, |saved[name]|, cache)
    ensures PartlyRebuilt(saved, macs, done + {name}, "", 0, cache)
  {
  }
}
