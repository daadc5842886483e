// The lines of the translation lookaside buffer of tlb.c in list order, and the order of last use.
module TlbOrder {
  import opened Sequences

  const MAX_NODES: nat := 16

  // The null pointer or the address of a page table entry.
  datatype Entry = Null | Pte(id: nat)

  datatype Line = Line(addr: nat, entry: Entry)

  // tlb_create: the list is never empty; its first node is for page 0 and has no entry.
  const FRESH: seq<Line> := [Line(0, Null)]

  // ---------- lookup and insertion on values ----------

  // The position of the first line for an address.
  function Find(l: seq<Line>, addr: nat): (i: nat)
    ensures i <= |l| && (i < |l| ==> l[i].addr == addr)
    ensures forall j :: 0 <= j < i ==> l[j].addr != addr
  {
    if l == [] || l[0].addr == addr then 0 else 1 + Find(l[1..], addr)
  }

  function ToFront<T>(s: seq<T>, i: nat): (r: seq<T>)
    requires i < |s|
    ensures |r| == |s|
  {
    [s[i]] + s[..i] + s[i + 1..]
  }

  // tlb_get_pte
  function Lookup(l: seq<Line>, addr: nat): (seq<Line>, Entry) {
    var i := Find(l, addr);
    if i == |l| then (l, Null) else (ToFront(l, i), l[i].entry)
  }

  function Truncate<T>(s: seq<T>): seq<T> {
    if |s| >= MAX_NODES then s[..|s| - 1] else s
  }

  // tlb_add_pte
  function Insert(l: seq<Line>, addr: nat, entry: Entry): seq<Line> {
    [Line(addr, entry)] + Truncate(l)
  }

  // One memory access: a lookup and, after a miss, an insertion. The result says whether it was a hit.
  function Access(l: seq<Line>, addr: nat, entry: Entry): (seq<Line>, Entry) {
    var (m, found) := Lookup(l, addr);
    if found == Null then (Insert(m, addr, entry), Null) else (m, found)
  }

  // ---------- the order of last use ----------

  // The node that the list starts with has a key of its own.
  datatype Key = Dummy | Page(addr: nat)

  function KeyOf(line: Line): Key {
    if line.entry == Null then Dummy else Page(line.addr)
  }

  function Keys(l: seq<Line>): (r: seq<Key>)
    ensures |r| == |l|
  {
    seq(|l|, i requires 0 <= i < |l| => KeyOf(l[i]))
  }

  function Front<T(==)>(s: seq<T>, x: T): seq<T> {
    if x in s then ToFront(s, IndexOf(s, x)) else [x] + s
  }

  function Top<T>(s: seq<T>): (r: seq<T>) {
    if |s| <= MAX_NODES then s else s[..MAX_NODES]
  }

  // All keys ever used since the last flush, the most recent one first. The first access of page 0 also
  // touches the dummy, if that is among the first MAX_NODES keys.
  function Recency(pages: seq<nat>): (r: seq<Key>) {
    if pages == [] then [Dummy]
    else
      var before, page := pages[..|pages| - 1], pages[|pages| - 1];
      Front(Touched(Recency(before), before, page), Page(page))
  }

  function Touched(r: seq<Key>, before: seq<nat>, page: nat): seq<Key> {
    if page == 0 && 0 !in before && Dummy in Top(r) then Front(r, Dummy) else r
  }

  lemma ConsElements<T>(s: seq<T>, x: T)
    requires Distinct(s) && x !in s
    ensures Distinct([x] + s) && Elements([x] + s) == Elements(s) + {x}
  {
    forall y ensures y in [x] + s <==> y == x || y in s {
    }
  }

  lemma FrontDistinct<T>(s: seq<T>, x: T)
    requires Distinct(s)
    ensures Distinct(Front(s, x)) && Elements(Front(s, x)) == Elements(s) + {x}
  {
    if x in s {
      WithoutElements(s, x);
      assert x !in Elements(Without(s, x));
      ConsElements(Without(s, x), x);
      assert Front(s, x) == [x] + Without(s, x);
    } else {
      ConsElements(s, x);
    }
  }

  lemma RecencyStep(before: seq<nat>, page: nat)
    ensures Recency(before + [page]) == Front(Touched(Recency(before), before, page), Page(page))
  {
    assert (before + [page])[..|before|] == before;
  }

  lemma TouchedKeys(r: seq<Key>, before: seq<nat>, page: nat)
    requires Distinct(r) && Dummy in r
    ensures var t := Touched(r, before, page); Distinct(t) && forall k :: k in t <==> k in r
  {
    var t := Touched(r, before, page);
    FrontDistinct(r, Dummy);
    forall k ensures k in t <==> k in r {
      assert k in t <==> k in Elements(t);
    }
  }

  lemma UsedKeys(r: seq<Key>, before: seq<nat>, page: nat)
    requires Distinct(r) && Dummy in r
    ensures var u := Front(Touched(r, before, page), Page(page));
      Distinct(u) && forall k :: k in u <==> k in r || k == Page(page)
  {
    TouchedKeys(r, before, page);
    var t := Touched(r, before, page);
    FrontDistinct(t, Page(page));
    forall k ensures k in Front(t, Page(page)) <==> k in t || k == Page(page) {
      assert k in Front(t, Page(page)) <==> k in Elements(Front(t, Page(page)));
    }
  }

  lemma {:induction false} RecencyKeys(pages: seq<nat>)
    ensures Distinct(Recency(pages)) && Dummy in Recency(pages)
    ensures forall p :: Page(p) in Recency(pages) <==> p in pages
  {
    if pages != [] {
      var before, page := pages[..|pages| - 1], pages[|pages| - 1];
      assert pages == before + [page];
      RecencyKeys(before);
      RecencyStep(before, page);
      UsedKeys(Recency(before), before, page);
    }
  }

  // A use of x leaves the order of all other keys as it was.
  lemma FrontIndex<T>(s: seq<T>, x: T, y: T)
    requires Distinct(s) && y in s && x != y
    ensures y in Front(s, x)
    ensures IndexOf(Front(s, x), y) == IndexOf(s, y) + if IndexOf(s, y) < IndexOf(s, x) then 1 else 0
  {
    FrontDistinct(s, x);
    FrontAt(s, x, IndexOf(s, y));
    DistinctIndex(Front(s, x), IndexOf(s, y) + if IndexOf(s, y) < IndexOf(s, x) then 1 else 0);
  }

  lemma FrontAt<T>(s: seq<T>, x: T, i: nat)
    requires i < |s| && i != IndexOf(s, x)
    ensures var j := i + if i < IndexOf(s, x) then 1 else 0; j < |Front(s, x)| && Front(s, x)[j] == s[i]
  {
  }

  lemma FrontKeepsOrder<T>(s: seq<T>, x: T, y: T, z: T)
    requires Distinct(s) && y in s && z in s && x != y && x != z && IndexOf(s, y) < IndexOf(s, z)
    ensures IndexOf(Front(s, x), y) < IndexOf(Front(s, x), z)
  {
    FrontIndex(s, x, y);
    FrontIndex(s, x, z);
  }

  lemma FrontFirst<T>(s: seq<T>, x: T, y: T)
    requires x != y
    ensures IndexOf(Front(s, x), x) < IndexOf(Front(s, x), y)
  {
    var r := Front(s, x);
    assert r[0] == x && r[0] != y;
  }

  // Page 0 was used after the dummy, if it was used at all.
  lemma {:induction false} PageBeforeDummy(pages: seq<nat>)
    ensures 0 in pages ==> PageFirst(Recency(pages))
  {
    if pages != [] {
      var before, page := pages[..|pages| - 1], pages[|pages| - 1];
      assert pages == before + [page];
      PageBeforeDummy(before);
      RecencyKeys(before);
      RecencyStep(before, page);
      PageStaysFirst(Recency(before), before, page);
    }
  }

  predicate PageFirst(r: seq<Key>) {
    IndexOf(r, Page(0)) < IndexOf(r, Dummy)
  }

  lemma PageStaysFirst(r: seq<Key>, before: seq<nat>, page: nat)
    requires Distinct(r) && Dummy in r && (Page(0) in r <==> 0 in before) && (0 in before ==> PageFirst(r))
    ensures 0 in before || page == 0 ==> PageFirst(Front(Touched(r, before, page), Page(page)))
  {
    if page == 0 {
      FrontFirst(Touched(r, before, page), Page(0), Dummy);
    } else if 0 in before {
      FrontKeepsOrder(r, Page(page), Page(0), Dummy);
    }
  }

  lemma {:induction false} FirstIndex<T>(s: seq<T>, j: nat)
    requires j < |s|
    ensures IndexOf(s, s[j]) <= j
  {
    if s[0] != s[j] {
      FirstIndex(s[1..], j - 1);
    }
  }

  lemma TopIndex<T>(s: seq<T>, x: T)
    ensures x in Top(s) <==> x in s && IndexOf(s, x) < MAX_NODES
  {
    var i := IndexOf(s, x);
    if x in s && i < MAX_NODES {
      assert Top(s)[i] == x;
    }
    if x in Top(s) {
      var j :| 0 <= j < |Top(s)| && Top(s)[j] == x;
      assert s[j] == x;
      FirstIndex(s, j);
    }
  }

  // The first keys after a use, from the first keys before it.
  lemma TopFront<T>(s: seq<T>, x: T)
    requires Distinct(s)
    ensures Top(Front(s, x)) == if x in Top(s) then Front(Top(s), x) else [x] + Truncate(Top(s))
  {
    TopIndex(s, x);
    if x in Top(s) {
      var i := IndexOf(s, x);
      assert Top(s)[i] == x;
      DistinctIndex(Top(s), i);
      TopMoved(s, i);
    } else if x in s {
      TopMoved(s, IndexOf(s, x));
    }
  }

  lemma TopMoved<T>(s: seq<T>, i: nat)
    requires i < |s|
    ensures Top(ToFront(s, i)) == if i < MAX_NODES then ToFront(Top(s), i) else [s[i]] + Truncate(Top(s))
  {
  }

  lemma DistinctIndex<T>(s: seq<T>, i: nat)
    requires i < |s| && forall j :: 0 <= j < i ==> s[j] != s[i]
    ensures IndexOf(s, s[i]) == i
  {
  }

  // ---------- the list keeps the order of last use ----------

  // The keys of the list are the most recently used ones, in that order, and every entry is the last one
  // inserted for its page.
  ghost predicate Represents(l: seq<Line>, pages: seq<nat>, added: map<nat, Entry>) {
    Keys(l) == Top(Recency(pages)) && EntriesAre(l, added)
  }

  predicate EntriesAre(l: seq<Line>, added: map<nat, Entry>) {
    forall line :: line in l ==>
      if line.entry == Null then line.addr == 0 else line.addr in added && added[line.addr] == line.entry
  }

  lemma FreshRepresents()
    ensures Represents(FRESH, [], map[])
  {
  }

  // Where a key is in the list.
  lemma FindsKey(l: seq<Line>, pages: seq<nat>, added: map<nat, Entry>, addr: nat)
    requires Represents(l, pages, added)
    ensures var i := Find(l, addr);
      && (i < |l| && l[i].entry != Null <==> Page(addr) in Keys(l))
      && (i < |l| && l[i].entry == Null <==> addr == 0 && Dummy in Keys(l) && Page(0) !in Keys(l))
      && (i < |l| ==> IndexOf(Keys(l), KeyOf(l[i])) == i)
  {
    var i := Find(l, addr);
    RecencyKeys(pages);
    if i < |l| {
      assert KeyOf(l[i]) == Keys(l)[i];
      forall j | 0 <= j < i ensures Keys(l)[j] != Keys(l)[i] {
        assert l[i] in l && l[j] in l && Keys(l)[j] == KeyOf(l[j]);
      }
      DistinctIndex(Keys(l), i);
      assert l[i] in l;
      if l[i].entry == Null {
        PageBeforeDummy(pages);
        forall j | i < j < |l| ensures Keys(l)[j] != Page(0) {
          DistinctIndex(Recency(pages), j);
        }
      }
    } else {
      forall j | 0 <= j < |l| ensures Keys(l)[j] != Page(addr) && (addr == 0 ==> Keys(l)[j] != Dummy) {
        assert l[j] in l;
      }
    }
  }

  lemma KeysToFront(l: seq<Line>, i: nat)
    requires i < |l| && IndexOf(Keys(l), KeyOf(l[i])) == i
    ensures Keys(ToFront(l, i)) == Front(Keys(l), KeyOf(l[i]))
  {
    assert KeyOf(l[i]) == Keys(l)[i];
  }

  lemma KeysInsert(l: seq<Line>, addr: nat, entry: Entry)
    requires entry != Null
    ensures Keys(Insert(l, addr, entry)) == [Page(addr)] + Truncate(Keys(l))
  {
  }

  // What was not in the list before it was touched is not in it afterwards.
  lemma StillOut(r: seq<Key>, addr: nat)
    requires Distinct(r) && Dummy in Top(r) && Page(addr) !in r
    ensures Page(addr) !in Top(Front(r, Dummy))
  {
    FrontDistinct(r, Dummy);
    assert Page(addr) !in Elements(Front(r, Dummy));
  }

  lemma AccessKeys(l: seq<Line>, pages: seq<nat>, added: map<nat, Entry>, addr: nat, entry: Entry)
    requires Represents(l, pages, added) && entry != Null
    ensures Keys(Access(l, addr, entry).0) == Top(Recency(pages + [addr]))
  {
    var i, r := Find(l, addr), Recency(pages);
    assert (pages + [addr])[..|pages|] == pages;
    RecencyKeys(pages);
    FindsKey(l, pages, added, addr);
    var t := Touched(r, pages, addr);
    FrontDistinct(r, Dummy);
    TopFront(t, Page(addr));
    if i < |l| && l[i].entry != Null {
      KeysToFront(l, i);
      InTop(r, Page(addr));
    } else if i < |l| {
      KeysToFront(l, i);
      KeysInsert(ToFront(l, i), addr, entry);
      PageBeforeDummy(pages);
      TopIndex(r, Dummy);
      TopFront(r, Dummy);
      StillOut(r, 0);
    } else {
      KeysInsert(l, addr, entry);
    }
  }

  lemma InTop(r: seq<Key>, k: Key)
    requires k in Top(r)
    ensures k in r
  {
  }

  lemma KeysIn(l: seq<Line>, k: Key)
    ensures k in Keys(l) <==> exists line :: line in l && KeyOf(line) == k
  {
    if k in Keys(l) {
      var i :| 0 <= i < |l| && Keys(l)[i] == k;
      assert l[i] in l && KeyOf(l[i]) == k;
    }
    if line :| line in l && KeyOf(line) == k {
      var i :| 0 <= i < |l| && l[i] == line;
      assert Keys(l)[i] == k;
    }
  }

  // One access: it is a hit exactly if the page is among the keys the list must hold, a hit gives the entry
  // last inserted for the page, and the list still represents what has been used.
  lemma AccessKeeps(l: seq<Line>, pages: seq<nat>, added: map<nat, Entry>, addr: nat, entry: Entry)
    requires Represents(l, pages, added) && entry != Null
    ensures var (m, found) := Access(l, addr, entry);
      && (found != Null <==> Page(addr) in Top(Recency(pages)))
      && (found != Null ==> addr in added && added[addr] == found)
      && Represents(m, pages + [addr], if found == Null then added[addr := entry] else added)
  {
    AccessKeys(l, pages, added, addr, entry);
    FindsKey(l, pages, added, addr);
    var i := Find(l, addr);
    if i < |l| {
      assert l[i] in l;
    }
    LookupSubset(l, addr);
    if Page(addr) !in Keys(l) {
      forall line | line in l && line.entry != Null ensures line.addr != addr {
        KeysIn(l, Page(addr));
        assert KeyOf(line) == Page(line.addr);
      }
      EntriesInserted(Lookup(l, addr).0, added, addr, entry);
    }
  }

  lemma LookupSubset(l: seq<Line>, addr: nat)
    ensures forall line :: line in Lookup(l, addr).0 ==> line in l
  {
  }

  lemma EntriesInserted(l: seq<Line>, added: map<nat, Entry>, addr: nat, entry: Entry)
    requires EntriesAre(l, added) && entry != Null
    requires forall line :: line in l && line.entry != Null ==> line.addr != addr
    ensures EntriesAre(Insert(l, addr, entry), added[addr := entry])
  {
    forall line | line in Insert(l, addr, entry) && line != Line(addr, entry) ensures line in l {
    }
  }

  // ---------- least recently used ----------

  // The number of the last access of a page.
  function LastUse(pages: seq<nat>, page: nat): (i: nat)
    requires page in pages
    ensures i < |pages| && pages[i] == page
    ensures forall j :: i < j < |pages| ==> pages[j] != page
  {
    if pages[|pages| - 1] == page then |pages| - 1 else LastUse(pages[..|pages| - 1], page)
  }

  // The order of last use is what its name says.
  lemma {:induction false} RecencyOrder(pages: seq<nat>, p: nat, q: nat)
    requires p in pages && q in pages && p != q
    ensures IndexOf(Recency(pages), Page(p)) < IndexOf(Recency(pages), Page(q))
      <==> LastUse(pages, p) > LastUse(pages, q)
  {
    var before, page := pages[..|pages| - 1], pages[|pages| - 1];
    assert pages == before + [page];
    RecencyKeys(before);
    RecencyStep(before, page);
    var r := Recency(before);
    var t := Touched(r, before, page);
    if page == p {
      FrontFirst(t, Page(p), Page(q));
    } else if page == q {
      FrontFirst(t, Page(q), Page(p));
    } else {
      RecencyOrder(before, p, q);
      OrderStays(r, Dummy, Page(p), Page(q));
      OrderStays(t, Page(page), Page(p), Page(q));
    }
  }

  // A use of x does not change which of two other keys comes first.
  lemma OrderStays<T>(s: seq<T>, x: T, y: T, z: T)
    requires Distinct(s) && y in s && z in s && x != y && x != z
    ensures Distinct(Front(s, x)) && y in Front(s, x) && z in Front(s, x)
    ensures IndexOf(Front(s, x), y) < IndexOf(Front(s, x), z) <==> IndexOf(s, y) < IndexOf(s, z)
  {
    FrontDistinct(s, x);
    FrontIndex(s, x, y);
    FrontIndex(s, x, z);
  }

  // When a line is dropped to make room, the list is full, and every other page in it has been used since.
  lemma DroppedIsOldest(l: seq<Line>, pages: seq<nat>, added: map<nat, Entry>, addr: nat, entry: Entry, line: Line)
    requires Represents(l, pages, added) && entry != Null
    requires line in l && line.entry != Null && line !in Access(l, addr, entry).0
    ensures |l| == 16
    ensures forall other :: other in l && other.entry != Null && other != line ==>
      other.addr in pages && line.addr in pages && LastUse(pages, other.addr) > LastUse(pages, line.addr)
  {
    var d := DroppedIsLast(l, addr, entry, line);
    forall other | other in l && other.entry != Null && other != line
      ensures other.addr in pages && line.addr in pages && LastUse(pages, other.addr) > LastUse(pages, line.addr)
    {
      var i :| 0 <= i < |l| && l[i] == other;
      EarlierIsNewer(l, pages, i, d);
    }
  }

  // Of two pages in the list the first one has been used last.
  lemma EarlierIsNewer(l: seq<Line>, pages: seq<nat>, i: nat, d: nat)
    requires Keys(l) == Top(Recency(pages)) && i < d < |l| && l[i].entry != Null && l[d].entry != Null
    ensures l[i].addr in pages && l[d].addr in pages && LastUse(pages, l[i].addr) > LastUse(pages, l[d].addr)
  {
    RecencyKeys(pages);
    var r := Recency(pages);
    assert Keys(l)[i] == r[i] == Page(l[i].addr);
    assert Keys(l)[d] == r[d] == Page(l[d].addr);
    DistinctIndex(r, i);
    DistinctIndex(r, d);
    RecencyOrder(pages, l[i].addr, l[d].addr);
  }

  // Only the dummy can stand behind the line that is dropped.
  lemma DroppedIsLast(l: seq<Line>, addr: nat, entry: Entry, line: Line) returns (d: nat)
    requires |l| <= MAX_NODES && line in l && line !in Access(l, addr, entry).0
    ensures |l| == MAX_NODES && d < |l| && l[d] == line
    ensures forall j :: d < j < |l| ==> l[j].entry == Null
  {
    LookupKeeps(l, addr, line);
    var i, looked := Find(l, addr), Lookup(l, addr).0;
    var m := Access(l, addr, entry).0;
    assert |l| == MAX_NODES && looked[|l| - 1] == line by {
      assert m == looked || m[1..] == Truncate(looked);
      assert line !in Truncate(looked);
      assert Truncate(looked) + looked[|Truncate(looked)|..] == looked;
    }
    d := if i == |l| - 1 then |l| - 2 else |l| - 1;
  }

  lemma LookupKeeps(l: seq<Line>, addr: nat, line: Line)
    requires line in l
    ensures line in Lookup(l, addr).0
  {
    var i, m := Find(l, addr), Lookup(l, addr).0;
    var j :| 0 <= j < |l| && l[j] == line;
    if i < |l| {
      assert m[if j == i then 0 else if j < i then j + 1 else j] == line;
    }
  }

  // ---------- runs ----------

  // The list, the pages accessed since the last flush, and the entry last inserted for each of them.
  datatype Cache = Cache(lines: seq<Line>, pages: seq<nat>, added: map<nat, Entry>)

  // A memory access, with the entry that is inserted if it is a miss, or a flush.
  datatype Event = Use(addr: nat, entry: Entry) | Flush

  // The list keeps what is said of it above.
  ghost predicate Sound(c: Cache) {
    match c
    case Cache(lines, pages, added) => Represents(lines, pages, added)
  }

  function Next(c: Cache, e: Event): Cache {
    match e
    case Flush => Cache(FRESH, [], map[])
    case Use(addr, entry) =>
      var (lines, found) := Access(c.lines, addr, entry);
      Cache(lines, c.pages + [addr], if found == Null then c.added[addr := entry] else c.added)
  }

  predicate IsRun(caches: seq<Cache>, events: seq<Event>) {
    && |caches| == |events| + 1 && caches[0] == Cache(FRESH, [], map[])
    && forall i :: 0 <= i < |events| ==> Follows(caches[i], events[i], caches[i + 1])
  }

  predicate Follows(c: Cache, e: Event, c': Cache) {
    (e.Use? ==> e.entry != Null) && c' == Next(c, e)
  }

  lemma NextKeeps(c: Cache, e: Event, c': Cache)
    requires Sound(c) && Follows(c, e, c')
    ensures Sound(c')
  {
    match e {
      case Flush => FreshRepresents();
      case Use(addr, entry) => AccessKeeps(c.lines, c.pages, c.added, addr, entry);
    }
  }

  lemma CountLines(c: Cache)
    requires Sound(c)
    ensures 1 <= |c.lines| <= MAX_NODES
  {
    RecencyKeys(c.pages);
    assert |Keys(c.lines)| == |Top(Recency(c.pages))|;
  }

  // In every state of every run the list has between 1 and 16 lines and represents what was used.
  lemma {:induction false} EveryRun(caches: seq<Cache>, events: seq<Event>, i: nat)
    requires IsRun(caches, events) && i < |caches|
    ensures Sound(caches[i]) && 1 <= |caches[i].lines| <= 16
  {
    if i == 0 {
      FreshRepresents();
    } else {
      EveryRun(caches, events, i - 1);
      NextKeeps(caches[i - 1], events[i - 1], caches[i]);
    }
    CountLines(caches[i]);
  }
}
