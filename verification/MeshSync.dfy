/** Mesh synchronisation: reading a node's records through its cursor, and convergence per origin and namespace. */
module MeshSync {

  type Token = string
  type Id = string

  datatype Cursor = NoCursor | Next(token: Token)

  datatype Page = Page(records: seq<Id>, cursor: Cursor)

  datatype Pages = Pages(start: Token, table: map<Token, Page>)

  datatype Status = Complete | Error

  // ----- The cursor chain, apart from any reader

  /** Where a reader stands after some pages: before a page, past the last one, or at a token that names no page. */
  datatype Position = Before(token: Token) | Ended | Nowhere

  function Advance(pages: Pages, at: Position): Position
  {
    match at
    case Before(t) =>
      if t !in pages.table then Nowhere
      else (match pages.table[t].cursor
            case NoCursor => Ended
            case Next(u) => Before(u))
    case Ended => Ended
    case Nowhere => Nowhere
  }

  function After(pages: Pages, n: nat): Position
  {
    if n == 0 then Before(pages.start) else Advance(pages, After(pages, n - 1))
  }

  /** The records of the first n pages, in reading order. */
  function Served(pages: Pages, n: nat): seq<Id>
  {
    if n == 0 then [] else Served(pages, n - 1) + RecordsAt(pages, After(pages, n - 1))
  }

  function RecordsAt(pages: Pages, at: Position): seq<Id>
  {
    if at.Before? && at.token in pages.table then pages.table[at.token].records else []
  }

  /** The chain of cursors reaches a page without one after exactly n pages. */
  predicate EndsAt(pages: Pages, n: nat)
  {
    n > 0 && After(pages, n) == Ended && After(pages, n - 1).Before?
  }

  ghost predicate Ends(pages: Pages)
  {
    exists n :: EndsAt(pages, n)
  }

  /** The chain names no page after n pages, or comes back after n pages to where it was after m. */
  predicate Loops(pages: Pages, m: nat, n: nat)
  {
    m < n && After(pages, n).Before? && After(pages, m) == After(pages, n)
  }

  ghost predicate Repeats(pages: Pages, n: nat)
  {
    exists m :: Loops(pages, m, n)
  }

  predicate Dangles(pages: Pages, n: nat)
  {
    After(pages, n).Before? && After(pages, n).token !in pages.table
  }

  lemma {:induction false} Absorbed(pages: Pages, m: nat, n: nat)
    requires m <= n && !After(pages, m).Before?
    ensures After(pages, n) == After(pages, m)
  {
    if m < n { Absorbed(pages, m, n - 1); }
  }

  lemma EndUnique(pages: Pages, m: nat, n: nat)
    requires EndsAt(pages, m) && EndsAt(pages, n)
    ensures m == n
  {
    if m < n { Absorbed(pages, m, n - 1); }
    if n < m { Absorbed(pages, n, m - 1); }
  }

  lemma {:induction false} Periodic(pages: Pages, m: nat, n: nat, k: nat)
    requires After(pages, m) == After(pages, n)
    ensures After(pages, m + k) == After(pages, n + k)
  {
    if k > 0 { Periodic(pages, m, n, k - 1); }
  }

  /** A chain that comes back never ends. */
  lemma LoopNeverEnds(pages: Pages, m: nat, n: nat, end: nat)
    requires Loops(pages, m, n)
    ensures !EndsAt(pages, end)
  {
    if EndsAt(pages, end) {
      if end <= n {
        Absorbed(pages, end, n);
      } else {
        Periodic(pages, m, n, end - n);
        Absorbed(pages, m + (end - n), end - 1);
      }
    }
  }

  lemma DanglingNeverEnds(pages: Pages, n: nat, end: nat)
    requires Dangles(pages, n)
    ensures !EndsAt(pages, end)
  {
    if EndsAt(pages, end) {
      if end <= n {
        Absorbed(pages, end, n);
      } else {
        Absorbed(pages, n + 1, end);
      }
    }
  }

  /** Each token was visited before position n. */
  ghost predicate Visited(pages: Pages, n: nat, seen: set<Token>)
  {
    forall t | t in seen :: VisitedAt(pages, n, t)
  }

  predicate StandsAt(pages: Pages, i: nat, n: nat, t: Token)
  {
    i < n && After(pages, i) == Before(t)
  }

  ghost predicate VisitedAt(pages: Pages, n: nat, t: Token)
  {
    exists i :: StandsAt(pages, i, n, t)
  }

  lemma VisitOne(pages: Pages, n: nat, seen: set<Token>, t: Token)
    requires Visited(pages, n, seen) && After(pages, n) == Before(t)
    ensures Visited(pages, n + 1, seen + {t})
  {
    forall u | u in seen + {t} ensures VisitedAt(pages, n + 1, u) {
      if u == t {
        assert StandsAt(pages, n, n + 1, u);
      } else {
        assert VisitedAt(pages, n, u);
        var i :| StandsAt(pages, i, n, u);
        assert StandsAt(pages, i, n + 1, u);
      }
    }
  }

  /** A reader about to look at tok, having read n pages. */
  ghost predicate Reading(pages: Pages, n: nat, seen: set<Token>, tok: Token, out: seq<Id>)
  {
    && After(pages, n) == Before(tok)
    && Visited(pages, n, seen)
    && out == Served(pages, n)
  }

  lemma CameBack(pages: Pages, n: nat, seen: set<Token>, tok: Token, out: seq<Id>)
    requires Reading(pages, n, seen, tok, out) && tok in seen
    ensures Repeats(pages, n) && !Ends(pages) && out == Served(pages, n)
  {
    assert VisitedAt(pages, n, tok);
    var m :| StandsAt(pages, m, n, tok);
    assert Loops(pages, m, n);
    forall end ensures !EndsAt(pages, end) { LoopNeverEnds(pages, m, n, end); }
  }

  lemma NoSuchPage(pages: Pages, n: nat, seen: set<Token>, tok: Token, out: seq<Id>)
    requires Reading(pages, n, seen, tok, out) && tok !in pages.table
    ensures Dangles(pages, n) && !Ends(pages) && out == Served(pages, n)
  {
    forall end ensures !EndsAt(pages, end) { DanglingNeverEnds(pages, n, end); }
  }

  lemma ReadPage(pages: Pages, n: nat, seen: set<Token>, tok: Token, out: seq<Id>, page: Page)
    requires Reading(pages, n, seen, tok, out) && tok in pages.table && page == pages.table[tok]
    ensures page.cursor == NoCursor ==>
      EndsAt(pages, n + 1) && Ends(pages) && out + page.records == Served(pages, n + 1)
    ensures page.cursor.Next? ==> Reading(pages, n + 1, seen + {tok}, page.cursor.token, out + page.records)
  {
    if page.cursor == NoCursor {
      assert EndsAt(pages, n + 1);
    } else {
      VisitOne(pages, n, seen, tok);
    }
  }

  lemma Fewer(all: set<Token>, seen: set<Token>, t: Token)
    requires t in all && t !in seen
    ensures |all - (seen + {t})| < |all - seen|
  {
    assert all - (seen + {t}) == (all - seen) - {t};
  }

  /**
   The reader follows cursors until one is missing. It reports Complete exactly when the chain ends, with every page's
   records in order; otherwise the chain has come back on itself or names no page, and can never end.
   */
  method Enumerate(pages: Pages) returns (status: Status, out: seq<Id>, ghost n: nat)
    ensures status == Complete <==> Ends(pages)
    ensures status == Complete ==> EndsAt(pages, n)
    ensures status == Error ==> Repeats(pages, n) || Dangles(pages, n)
    ensures out == Served(pages, n)
  {
    out, n := [], 0;
    var seen: set<Token> := {};
    var tok := pages.start;
    while true
      invariant Reading(pages, n, seen, tok, out)
      decreases |pages.table.Keys - seen|
    {
      if tok in seen {
        CameBack(pages, n, seen, tok, out);
        return Error, out, n;
      }
      if tok !in pages.table {
        NoSuchPage(pages, n, seen, tok, out);
        return Error, out, n;
      }
      var page := pages.table[tok];
      Fewer(pages.table.Keys, seen, tok);
      ReadPage(pages, n, seen, tok, out, page);
      seen := seen + {tok};
      out := out + page.records;
      n := n + 1;
      match page.cursor {
        case NoCursor => return Complete, out, n;
        case Next(u) => tok := u;
      }
    }
  }

  // ----- Convergence

  datatype Lack = NamespaceAbsent | NotEnumerable | Lacking(count: nat)

  datatype Node = Node(name: string, served: map<string, Pages>)

  /** What one origin produced in one namespace. */
  datatype Namespace = Namespace(name: string, produced: seq<Id>)

  datatype Origin = Origin(name: string, namespaces: seq<Namespace>)

  function Elements(s: seq<Id>): set<Id>
  {
    set x | x in s
  }

  /** The node serves the namespace, its cursor chain ends, and every produced record is among those served. */
  ghost predicate Holds(node: Node, ns: Namespace)
  {
    && ns.name in node.served
    && Ends(node.served[ns.name])
    && forall n | EndsAt(node.served[ns.name], n) :: Elements(ns.produced) <= Elements(Served(node.served[ns.name], n))
  }

  /** Why a node does not hold a namespace; the count is of distinct missing records. */
  ghost predicate Explains(node: Node, ns: Namespace, why: Lack)
  {
    match why
    case NamespaceAbsent => ns.name !in node.served
    case NotEnumerable => ns.name in node.served && !Ends(node.served[ns.name])
    case Lacking(count) =>
      && ns.name in node.served
      && Ends(node.served[ns.name])
      && count > 0
      && (forall n | EndsAt(node.served[ns.name], n) ::
            count == |Elements(ns.produced) - Elements(Served(node.served[ns.name], n))|)
  }

  datatype Finding = Fine | Missing(why: Lack)

  method CheckNode(node: Node, ns: Namespace) returns (f: Finding)
    ensures f == Fine <==> Holds(node, ns)
    ensures f.Missing? ==> Explains(node, ns, f.why)
  {
    if ns.name !in node.served {
      return Missing(NamespaceAbsent);
    }
    var status, records, n := Enumerate(node.served[ns.name]);
    if status != Complete {
      return Missing(NotEnumerable);
    }
    forall m | EndsAt(node.served[ns.name], m) ensures m == n { EndUnique(node.served[ns.name], m, n); }
    var lack := Elements(ns.produced) - Elements(records);
    if lack != {} {
      return Missing(Lacking(|lack|));
    }
    forall x | x in Elements(ns.produced) ensures x in Elements(records) {
      assert x !in lack;
    }
    return Fine;
  }

  ghost predicate AllHold(nodes: seq<Node>, ns: Namespace)
  {
    forall i | 0 <= i < |nodes| :: Holds(nodes[i], ns)
  }

  ghost predicate DistinctNames(nodes: seq<Node>)
  {
    forall i, j | 0 <= i < j < |nodes| :: nodes[i].name != nodes[j].name
  }

  type Report = map<string, Lack>

  /** The entries are exactly the nodes that do not hold the namespace, each with its reason. */
  ghost predicate Reports(nodes: seq<Node>, ns: Namespace, missing: Report)
  {
    && (forall i | 0 <= i < |nodes| :: nodes[i].name in missing <==> !Holds(nodes[i], ns))
    && (forall i | 0 <= i < |nodes| && nodes[i].name in missing :: Explains(nodes[i], ns, missing[nodes[i].name]))
    && (forall name | name in missing :: NamedIn(nodes, name))
  }

  ghost predicate NamedIn(nodes: seq<Node>, name: string)
  {
    exists i :: 0 <= i < |nodes| && nodes[i].name == name
  }

  lemma ReportsOne(nodes: seq<Node>, i: nat, ns: Namespace, missing: Report, f: Finding)
    requires DistinctNames(nodes) && i < |nodes| && Reports(nodes[..i], ns, missing)
    requires f == Fine <==> Holds(nodes[i], ns)
    requires f.Missing? ==> Explains(nodes[i], ns, f.why)
    ensures Reports(nodes[..i + 1], ns, if f.Missing? then missing[nodes[i].name := f.why] else missing)
  {
    var more := if f.Missing? then missing[nodes[i].name := f.why] else missing;
    var now := nodes[..i + 1];
    assert forall j | 0 <= j < i :: now[j] == nodes[..i][j] && now[j].name != nodes[i].name;
    assert now[i] == nodes[i];
    assert nodes[i].name in missing ==> NamedIn(nodes[..i], nodes[i].name);
    forall name | name in more ensures NamedIn(now, name) {
      if name in missing {
        assert NamedIn(nodes[..i], name);
        var j :| 0 <= j < i && nodes[..i][j].name == name;
        assert now[j].name == name;
      } else {
        assert now[i].name == name;
      }
    }
  }

  lemma EmptyReport(nodes: seq<Node>, ns: Namespace, missing: Report)
    requires Reports(nodes, ns, missing)
    ensures missing == map[] <==> AllHold(nodes, ns)
  {
    if name :| name in missing {
      assert NamedIn(nodes, name);
    }
  }

  method CheckNamespace(nodes: seq<Node>, ns: Namespace) returns (missing: Report)
    requires DistinctNames(nodes)
    ensures Reports(nodes, ns, missing) && (missing == map[] <==> AllHold(nodes, ns))
  {
    missing := map[];
    for i := 0 to |nodes|
      invariant Reports(nodes[..i], ns, missing)
    {
      var f := CheckNode(nodes[i], ns);
      ReportsOne(nodes, i, ns, missing, f);
      if f.Missing? {
        missing := missing[nodes[i].name := f.why];
      }
    }
    assert nodes[..|nodes|] == nodes;
    EmptyReport(nodes, ns, missing);
  }

  datatype Pair = Pair(origin: string, ns: Namespace) {

    /** The key under which a pair is reported. */
    function Key(): string { origin + ['/'] + ns.name }
  }

  /** One origin's pairs, and all origins' pairs, in the order they are visited. */
  function PairsOf(origin: string, namespaces: seq<Namespace>): (r: seq<Pair>)
    ensures |r| == |namespaces| && forall i | 0 <= i < |r| :: r[i] == Pair(origin, namespaces[i])
  {
    seq(|namespaces|, i requires 0 <= i < |namespaces| => Pair(origin, namespaces[i]))
  }

  function Pairs(origins: seq<Origin>): seq<Pair>
  {
    if |origins| == 0 then []
    else Pairs(origins[..|origins| - 1]) + PairsOf(origins[|origins| - 1].name, origins[|origins| - 1].namespaces)
  }

  /** Every node holds what every origin produced, namespace by namespace. */
  ghost predicate Converged(origins: seq<Origin>, nodes: seq<Node>)
  {
    forall o, ns | o in origins && ns in o.namespaces :: AllHold(nodes, ns)
  }

  ghost predicate PairsHeld(pairs: seq<Pair>, nodes: seq<Node>)
  {
    forall i | 0 <= i < |pairs| :: AllHold(nodes, pairs[i].ns)
  }

  /** No later pair is reported under the same key. */
  predicate LastOfKey(pairs: seq<Pair>, i: nat)
  {
    i < |pairs| && forall j | i < j < |pairs| :: pairs[j].Key() != pairs[i].Key()
  }

  /** Each key carries the report of the last pair with that key; an empty report is the source's CONVERGED. */
  ghost predicate DetailOf(pairs: seq<Pair>, nodes: seq<Node>, detail: map<string, Report>)
  {
    && (forall i | 0 <= i < |pairs| :: pairs[i].Key() in detail)
    && (forall k | k in detail :: LastWith(pairs, k))
    && (forall i | 0 <= i < |pairs| && LastOfKey(pairs, i) :: Settled(pairs[i], nodes, detail[pairs[i].Key()]))
  }

  ghost predicate Settled(pair: Pair, nodes: seq<Node>, missing: Report)
  {
    Reports(nodes, pair.ns, missing) && (missing == map[] <==> AllHold(nodes, pair.ns))
  }

  lemma LastAfterOne(pairs: seq<Pair>, pair: Pair, i: nat)
    requires i < |pairs|
    ensures LastOfKey(pairs + [pair], i) <==> LastOfKey(pairs, i) && pair.Key() != pairs[i].Key()
  {
    var all := pairs + [pair];
    assert all[|pairs|] == pair && all[i] == pairs[i];
    assert forall j | i < j < |pairs| :: all[j] == pairs[j];
  }

  ghost predicate LastWith(pairs: seq<Pair>, k: string)
  {
    exists i :: 0 <= i < |pairs| && pairs[i].Key() == k && LastOfKey(pairs, i)
  }

  lemma LastWithOne(pairs: seq<Pair>, pair: Pair, k: string)
    requires k == pair.Key() || LastWith(pairs, k)
    ensures LastWith(pairs + [pair], k)
  {
    var all := pairs + [pair];
    if k == pair.Key() {
      assert all[|pairs|].Key() == k && LastOfKey(all, |pairs|);
    } else {
      var i :| 0 <= i < |pairs| && pairs[i].Key() == k && LastOfKey(pairs, i);
      LastAfterOne(pairs, pair, i);
      assert all[i].Key() == k;
    }
  }

  lemma DetailOne(pairs: seq<Pair>, nodes: seq<Node>, detail: map<string, Report>, pair: Pair, missing: Report)
    requires DetailOf(pairs, nodes, detail) && Settled(pair, nodes, missing)
    ensures DetailOf(pairs + [pair], nodes, detail[pair.Key() := missing])
  {
    var more, all := detail[pair.Key() := missing], pairs + [pair];
    forall k | k in more ensures LastWith(all, k) { LastWithOne(pairs, pair, k); }
    forall i | 0 <= i < |all| && LastOfKey(all, i) ensures Settled(all[i], nodes, more[all[i].Key()]) {
      if i < |pairs| {
        LastAfterOne(pairs, pair, i);
      }
    }
  }

  /** What the loops have established after some pairs. */
  ghost predicate Judged(pairs: seq<Pair>, nodes: seq<Node>, detail: map<string, Report>, ok: bool)
  {
    DetailOf(pairs, nodes, detail) && (ok <==> PairsHeld(pairs, nodes))
  }

  lemma JudgedOne(
      pairs: seq<Pair>, nodes: seq<Node>, detail: map<string, Report>, ok: bool, pair: Pair, missing: Report)
    requires Judged(pairs, nodes, detail, ok) && Settled(pair, nodes, missing)
    ensures Judged(pairs + [pair], nodes, detail[pair.Key() := missing], ok && missing == map[])
  {
    DetailOne(pairs, nodes, detail, pair, missing);
    HeldConcat(pairs, [pair], nodes);
    assert [pair][0] == pair;
  }

  lemma PairsOfOne(before: seq<Pair>, origin: string, namespaces: seq<Namespace>, j: nat)
    requires j < |namespaces|
    ensures before + PairsOf(origin, namespaces[..j + 1])
         == before + PairsOf(origin, namespaces[..j]) + [Pair(origin, namespaces[j])]
  {
  }

  lemma {:induction false} PairsCover(origins: seq<Origin>, nodes: seq<Node>)
    ensures PairsHeld(Pairs(origins), nodes) <==> Converged(origins, nodes)
  {
    if |origins| > 0 {
      var k := |origins| - 1;
      var before, last := origins[..k], origins[k];
      PairsCover(before, nodes);
      HeldConcat(Pairs(before), PairsOf(last.name, last.namespaces), nodes);
      HeldOf(last, nodes);
      assert origins == before + [last];
    }
  }

  lemma HeldConcat(a: seq<Pair>, b: seq<Pair>, nodes: seq<Node>)
    ensures PairsHeld(a + b, nodes) <==> PairsHeld(a, nodes) && PairsHeld(b, nodes)
  {
    var c := a + b;
    assert forall i | 0 <= i < |a| :: c[i] == a[i];
    assert forall i | 0 <= i < |b| :: c[|a| + i] == b[i];
  }

  lemma HeldOf(o: Origin, nodes: seq<Node>)
    ensures PairsHeld(PairsOf(o.name, o.namespaces), nodes) <==> forall ns | ns in o.namespaces :: AllHold(nodes, ns)
  {
    var r := PairsOf(o.name, o.namespaces);
    assert forall i | 0 <= i < |r| :: r[i].ns == o.namespaces[i] && r[i].ns in o.namespaces;
  }

  /**
   The overall verdict is convergence, per origin and per namespace, of every node; the detail carries, under each key,
   exactly the nodes that fall short for the last pair of that key.
   */
  method PerOrigin(origins: seq<Origin>, nodes: seq<Node>) returns (ok: bool, detail: map<string, Report>)
    requires DistinctNames(nodes)
    ensures ok <==> Converged(origins, nodes)
    ensures DetailOf(Pairs(origins), nodes, detail)
  {
    detail, ok := map[], true;
    for i := 0 to |origins|
      invariant Judged(Pairs(origins[..i]), nodes, detail, ok)
    {
      PairsOne(origins, i);
      detail, ok := CheckOrigin(Pairs(origins[..i]), origins[i], nodes, detail, ok);
    }
    assert origins[..|origins|] == origins;
    PairsCover(origins, nodes);
  }

  lemma PairsOne(origins: seq<Origin>, i: nat)
    requires i < |origins|
    ensures Pairs(origins[..i + 1]) == Pairs(origins[..i]) + PairsOf(origins[i].name, origins[i].namespaces)
  {
    assert origins[..i + 1][..i] == origins[..i];
  }

  method CheckOrigin(ghost before: seq<Pair>, o: Origin, nodes: seq<Node>, was: map<string, Report>, wasOk: bool)
    returns (detail: map<string, Report>, ok: bool)
    requires DistinctNames(nodes) && Judged(before, nodes, was, wasOk)
    ensures Judged(before + PairsOf(o.name, o.namespaces), nodes, detail, ok)
  {
    detail, ok := was, wasOk;
    assert before + PairsOf(o.name, o.namespaces[..0]) == before;
    for j := 0 to |o.namespaces|
      invariant Judged(before + PairsOf(o.name, o.namespaces[..j]), nodes, detail, ok)
    {
      var pair := Pair(o.name, o.namespaces[j]);
      var missing := CheckNamespace(nodes, pair.ns);
      PairsOfOne(before, o.name, o.namespaces, j);
      JudgedOne(before + PairsOf(o.name, o.namespaces[..j]), nodes, detail, ok, pair, missing);
      detail := detail[pair.Key() := missing];
      ok := ok && missing == map[];
    }
    assert o.namespaces[..|o.namespaces|] == o.namespaces;
  }

  // ----- What the detail shows

  ghost predicate AllEmpty(detail: map<string, Report>)
  {
    forall k | k in detail :: detail[k] == map[]
  }

  /** Every pair that is the last of its key is held everywhere. */
  ghost predicate LastHeld(pairs: seq<Pair>, nodes: seq<Node>)
  {
    forall i: nat | LastOfKey(pairs, i) :: AllHold(nodes, pairs[i].ns)
  }

  /** The detail is converged everywhere exactly when every last pair is held; convergence always shows. */
  lemma DetailDecides(origins: seq<Origin>, nodes: seq<Node>, detail: map<string, Report>)
    requires DetailOf(Pairs(origins), nodes, detail)
    ensures AllEmpty(detail) <==> LastHeld(Pairs(origins), nodes)
    ensures Converged(origins, nodes) ==> AllEmpty(detail)
  {
    var pairs := Pairs(origins);
    PairsCover(origins, nodes);
    if LastHeld(pairs, nodes) {
      forall k | k in detail ensures detail[k] == map[] {
        assert LastWith(pairs, k);
        var i :| 0 <= i < |pairs| && pairs[i].Key() == k && LastOfKey(pairs, i);
        assert Settled(pairs[i], nodes, detail[k]);
      }
    }
    if AllEmpty(detail) {
      forall i: nat | LastOfKey(pairs, i) ensures AllHold(nodes, pairs[i].ns) {
        assert Settled(pairs[i], nodes, detail[pairs[i].Key()]);
      }
    }
  }

  /** The last pair l reports a namespace of that name, or a record of it. */
  predicate ReportsName(pairs: seq<Pair>, l: nat, name: string)
  {
    LastOfKey(pairs, l) && pairs[l].ns.name == name
  }

  predicate ReportsRecord(pairs: seq<Pair>, l: nat, name: string, x: Id)
  {
    ReportsName(pairs, l, name) && x in pairs[l].ns.produced
  }

  /** The namespace of pair i, and all that the pair produced in it, also stand in last pairs. */
  ghost predicate Covered(pairs: seq<Pair>, i: nat)
    requires i < |pairs|
  {
    && (exists l: nat :: ReportsName(pairs, l, pairs[i].ns.name))
    && (forall x | x in pairs[i].ns.produced :: exists l: nat :: ReportsRecord(pairs, l, pairs[i].ns.name, x))
  }

  ghost predicate AllCovered(pairs: seq<Pair>)
  {
    forall i | 0 <= i < |pairs| :: Covered(pairs, i)
  }

  lemma CoveredIsHeld(pairs: seq<Pair>, i: nat, node: Node)
    requires i < |pairs| && Covered(pairs, i)
    requires forall l: nat | LastOfKey(pairs, l) :: Holds(node, pairs[l].ns)
    ensures Holds(node, pairs[i].ns)
  {
    var ns := pairs[i].ns;
    var l: nat :| ReportsName(pairs, l, ns.name);
    assert Holds(node, pairs[l].ns);
    forall n, x | EndsAt(node.served[ns.name], n) && x in Elements(ns.produced)
      ensures x in Elements(Served(node.served[ns.name], n))
    {
      var m: nat :| ReportsRecord(pairs, m, ns.name, x);
      assert Holds(node, pairs[m].ns);
      assert x in Elements(pairs[m].ns.produced);
    }
  }

  /** What the first n pairs' last ones produced in the namespaces of one name. */
  function ReportedRecords(pairs: seq<Pair>, name: string, n: nat): seq<Id>
    requires n <= |pairs|
  {
    if n == 0 then []
    else
      var own := if ReportsName(pairs, n - 1, name) then pairs[n - 1].ns.produced else [];
      ReportedRecords(pairs, name, n - 1) + own
  }

  lemma {:induction false} ReportedMembers(pairs: seq<Pair>, name: string, n: nat, x: Id)
    requires n <= |pairs|
    ensures x in ReportedRecords(pairs, name, n) <==> exists l: nat :: l < n && ReportsRecord(pairs, l, name, x)
  {
    if n > 0 {
      ReportedMembers(pairs, name, n - 1, x);
      var own := if ReportsName(pairs, n - 1, name) then pairs[n - 1].ns.produced else [];
      assert x in own <==> ReportsRecord(pairs, n - 1, name, x);
      if x in ReportedRecords(pairs, name, n - 1) {
        var l: nat :| l < n - 1 && ReportsRecord(pairs, l, name, x);
        assert l < n && ReportsRecord(pairs, l, name, x);
      }
    }
  }

  function OnePage(records: seq<Id>): Pages
  {
    Pages("", map["" := Page(records, NoCursor)])
  }

  lemma OnePageServes(records: seq<Id>)
    ensures EndsAt(OnePage(records), 1) && Ends(OnePage(records)) && Served(OnePage(records), 1) == records
    ensures forall n :: EndsAt(OnePage(records), n) ==> n == 1
  {
    var pages := OnePage(records);
    assert After(pages, 0) == Before("");
    assert After(pages, 1) == Ended;
    assert Served(pages, 1) == Served(pages, 0) + records;
    assert EndsAt(pages, 1);
    forall n | EndsAt(pages, n) ensures n == 1 { EndUnique(pages, n, 1); }
  }

  lemma HoldsOnePage(node: Node, ns: Namespace, records: seq<Id>)
    requires ns.name in node.served && node.served[ns.name] == OnePage(records)
    ensures Holds(node, ns) <==> Elements(ns.produced) <= Elements(records)
  {
    OnePageServes(records);
  }

  /** The names of the namespaces that the first n pairs' last ones report. */
  function LastNames(pairs: seq<Pair>, n: nat): set<string>
    requires n <= |pairs|
  {
    if n == 0 then {} else LastNames(pairs, n - 1) + (if LastOfKey(pairs, n - 1) then {pairs[n - 1].ns.name} else {})
  }

  lemma {:induction false} LastNamesMembers(pairs: seq<Pair>, n: nat, name: string)
    requires n <= |pairs|
    ensures name in LastNames(pairs, n) <==> exists l: nat :: l < n && ReportsName(pairs, l, name)
  {
    if n > 0 {
      LastNamesMembers(pairs, n - 1, name);
      if name in LastNames(pairs, n - 1) {
        var l: nat :| l < n - 1 && ReportsName(pairs, l, name);
        assert l < n && ReportsName(pairs, l, name);
      }
      assert name in LastNames(pairs, n) <==> name in LastNames(pairs, n - 1) || ReportsName(pairs, n - 1, name);
    }
  }

  /** The node that serves exactly what the last pairs report. */
  function LastOnly(pairs: seq<Pair>): Node
  {
    Node("", map name | name in LastNames(pairs, |pairs|) :: OnePage(ReportedRecords(pairs, name, |pairs|)))
  }

  lemma LastOnlyHoldsLast(pairs: seq<Pair>, l: nat)
    requires LastOfKey(pairs, l)
    ensures Holds(LastOnly(pairs), pairs[l].ns)
  {
    var ns, records := pairs[l].ns, ReportedRecords(pairs, pairs[l].ns.name, |pairs|);
    LastNamesMembers(pairs, |pairs|, ns.name);
    assert ReportsName(pairs, l, ns.name);
    HoldsOnePage(LastOnly(pairs), ns, records);
    forall x | x in Elements(ns.produced) ensures x in Elements(records) {
      ReportedMembers(pairs, ns.name, |pairs|, x);
      assert l < |pairs| && ReportsRecord(pairs, l, ns.name, x);
    }
  }

  lemma LastOnlyHoldsCovered(pairs: seq<Pair>, i: nat)
    requires i < |pairs| && Holds(LastOnly(pairs), pairs[i].ns)
    ensures Covered(pairs, i)
  {
    var ns := pairs[i].ns;
    var records := ReportedRecords(pairs, ns.name, |pairs|);
    assert ns.name in LastOnly(pairs).served;
    LastNamesMembers(pairs, |pairs|, ns.name);
    HoldsOnePage(LastOnly(pairs), ns, records);
    forall x | x in ns.produced ensures exists m: nat :: ReportsRecord(pairs, m, ns.name, x) {
      assert x in Elements(ns.produced);
      ReportedMembers(pairs, ns.name, |pairs|, x);
    }
  }

  lemma CoveredAreHeld(pairs: seq<Pair>, nodes: seq<Node>)
    requires AllCovered(pairs) && LastHeld(pairs, nodes)
    ensures PairsHeld(pairs, nodes)
  {
    forall i | 0 <= i < |pairs| ensures AllHold(nodes, pairs[i].ns) {
      forall k | 0 <= k < |nodes| ensures Holds(nodes[k], pairs[i].ns) {
        forall l: nat | LastOfKey(pairs, l) ensures Holds(nodes[k], pairs[l].ns) { assert AllHold(nodes, pairs[l].ns); }
        CoveredIsHeld(pairs, i, nodes[k]);
      }
    }
  }

  lemma UncoveredHides(pairs: seq<Pair>, i: nat) returns (nodes: seq<Node>)
    requires i < |pairs| && !Covered(pairs, i)
    ensures DistinctNames(nodes) && LastHeld(pairs, nodes) && !PairsHeld(pairs, nodes)
  {
    var node := LastOnly(pairs);
    nodes := [node];
    forall l: nat | LastOfKey(pairs, l) ensures AllHold(nodes, pairs[l].ns) { LastOnlyHoldsLast(pairs, l); }
    assert !Holds(node, pairs[i].ns) by {
      if Holds(node, pairs[i].ns) { LastOnlyHoldsCovered(pairs, i); }
    }
    assert nodes[0] == node && !AllHold(nodes, pairs[i].ns);
  }

  lemma FindingExists(node: Node, ns: Namespace) returns (f: Finding)
    ensures f == Fine <==> Holds(node, ns)
    ensures f.Missing? ==> Explains(node, ns, f.why)
  {
    if ns.name !in node.served {
      return Missing(NamespaceAbsent);
    }
    var pages := node.served[ns.name];
    if !Ends(pages) {
      return Missing(NotEnumerable);
    }
    var n :| EndsAt(pages, n);
    forall m | EndsAt(pages, m) ensures m == n { EndUnique(pages, m, n); }
    var lack := Elements(ns.produced) - Elements(Served(pages, n));
    if lack != {} {
      return Missing(Lacking(|lack|));
    }
    forall x | x in Elements(ns.produced) ensures x in Elements(Served(pages, n)) {
      assert x !in lack;
    }
    f := Fine;
  }

  lemma {:induction false} ReportExists(nodes: seq<Node>, ns: Namespace, n: nat) returns (missing: Report)
    requires DistinctNames(nodes) && n <= |nodes|
    ensures Reports(nodes[..n], ns, missing)
  {
    if n == 0 {
      missing := map[];
    } else {
      missing := ReportExists(nodes, ns, n - 1);
      var f := FindingExists(nodes[n - 1], ns);
      ReportsOne(nodes, n - 1, ns, missing, f);
      missing := if f.Missing? then missing[nodes[n - 1].name := f.why] else missing;
    }
  }

  /** Whatever the nodes serve, there is a detail to report. */
  lemma {:induction false} DetailExists(pairs: seq<Pair>, nodes: seq<Node>, n: nat)
    returns (detail: map<string, Report>)
    requires DistinctNames(nodes) && n <= |pairs|
    ensures DetailOf(pairs[..n], nodes, detail)
  {
    if n == 0 {
      detail := map[];
    } else {
      var before := DetailExists(pairs, nodes, n - 1);
      var pair := pairs[n - 1];
      var missing := ReportExists(nodes, pair.ns, |nodes|);
      assert nodes[..|nodes|] == nodes;
      EmptyReport(nodes, pair.ns, missing);
      DetailOne(pairs[..n - 1], nodes, before, pair, missing);
      assert pairs[..n] == pairs[..n - 1] + [pair];
      detail := before[pair.Key() := missing];
    }
  }

  /** The nodes are named apart, and the detail is the one reported for them. */
  ghost predicate Reported(origins: seq<Origin>, nodes: seq<Node>, detail: map<string, Report>)
  {
    DistinctNames(nodes) && DetailOf(Pairs(origins), nodes, detail)
  }

  /**
   The detail is as telling as the verdict, whatever the nodes serve, if and only if no overwritten pair adds anything:
   its namespace, and all it produced there, also stand in pairs that are the last of their keys.
   */
  lemma DetailTellsExactly(origins: seq<Origin>)
    ensures AllCovered(Pairs(origins)) <==>
      forall nodes, detail :: Reported(origins, nodes, detail) ==> (AllEmpty(detail) <==> Converged(origins, nodes))
  {
    var pairs := Pairs(origins);
    if AllCovered(pairs) {
      forall nodes, detail | Reported(origins, nodes, detail) ensures AllEmpty(detail) <==> Converged(origins, nodes) {
        DetailDecides(origins, nodes, detail);
        PairsCover(origins, nodes);
        if LastHeld(pairs, nodes) { CoveredAreHeld(pairs, nodes); }
      }
    } else {
      var i :| 0 <= i < |pairs| && !Covered(pairs, i);
      var nodes, detail := DetailHides(origins, i);
    }
  }

  lemma DetailHides(origins: seq<Origin>, i: nat) returns (nodes: seq<Node>, detail: map<string, Report>)
    requires i < |Pairs(origins)| && !Covered(Pairs(origins), i)
    ensures Reported(origins, nodes, detail) && AllEmpty(detail) && !Converged(origins, nodes)
  {
    var pairs := Pairs(origins);
    nodes := UncoveredHides(pairs, i);
    detail := DetailExists(pairs, nodes, |pairs|);
    assert pairs[..|pairs|] == pairs;
    DetailDecides(origins, nodes, detail);
    PairsCover(origins, nodes);
  }

  predicate DistinctKeys(pairs: seq<Pair>)
  {
    forall i, j | 0 <= i < j < |pairs| :: pairs[i].Key() != pairs[j].Key()
  }

  /** In particular where no two pairs share a key. */
  lemma DistinctKeysCovered(pairs: seq<Pair>)
    requires DistinctKeys(pairs)
    ensures AllCovered(pairs)
  {
    forall i | 0 <= i < |pairs| ensures Covered(pairs, i) {
      assert ReportsName(pairs, i, pairs[i].ns.name);
      forall x | x in pairs[i].ns.produced ensures exists l: nat :: ReportsRecord(pairs, l, pairs[i].ns.name, x) {
        assert ReportsRecord(pairs, i, pairs[i].ns.name, x);
      }
    }
  }

  /** Two origins whose pairs share the key a/b/c: every entry of the detail is converged, the verdict is not. */
  lemma KeyOverwritten() returns (origins: seq<Origin>, nodes: seq<Node>)
    ensures DistinctNames(nodes) && !Converged(origins, nodes)
    ensures forall detail :: DetailOf(Pairs(origins), nodes, detail) ==> AllEmpty(detail)
  {
    var first, second := Namespace("c", ["x"]), Namespace("b/c", ["y"]);
    origins := [Origin("a/b", [first]), Origin("a", [second])];
    nodes := [Node("n", map["b/c" := OnePage(["y"])])];
    TwoPairs(origins[0], origins[1], first, second);
    assert Pair("a/b", first).Key() == "a/b/c" == Pair("a", second).Key();
    HoldsOnePage(nodes[0], second, ["y"]);
    Hidden(Pair("a/b", first), Pair("a", second), nodes);
    assert !Holds(nodes[0], first);
    assert !AllHold(nodes, first);
    assert origins[0] in origins && first in origins[0].namespaces;
    forall detail | DetailOf(Pairs(origins), nodes, detail) ensures AllEmpty(detail) {
      DetailDecides(origins, nodes, detail);
    }
  }

  lemma TwoPairs(o: Origin, p: Origin, a: Namespace, b: Namespace)
    requires o.namespaces == [a] && p.namespaces == [b]
    ensures Pairs([o, p]) == [Pair(o.name, a), Pair(p.name, b)]
  {
    var origins := [o, p];
    assert origins[..1] == [o] && [o][..0] == [];
    assert Pairs([o]) == [Pair(o.name, a)];
  }

  lemma Hidden(a: Pair, b: Pair, nodes: seq<Node>)
    requires a.Key() == b.Key() && AllHold(nodes, b.ns)
    ensures LastHeld([a, b], nodes)
  {
    var pairs := [a, b];
    assert pairs[0].Key() == pairs[1].Key() && !LastOfKey(pairs, 0);
  }
}
