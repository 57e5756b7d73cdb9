/** The windows of a layout: the tree is written one line a node, parents first, and read back
    by searching the parent by its identifier. */
module Layout {
  import opened Text

  datatype Tree =
    | Empty
    | Node(id: int, pct: int, horiz: int, plugin: Option<string>, buffer: Option<string>,
           child1: Tree, child2: Tree)

  // ---------------------------------------------------------------- writing

  function NameText(name: Option<string>): string {
    if name.Some? then name.value else "-"
  }

  datatype Record = Record(id: int, parent: int, pct: int, horiz: int,
                           plugin: Option<string>, buffer: Option<string>)

  function RecordOf(t: Tree, parent: int): Record
    requires t.Node?
  {
    Record(t.id, parent, t.pct, t.horiz, t.plugin, t.buffer)
  }

  function NamesText(r: Record): string {
    NameText(r.plugin) + ";" + NameText(r.buffer)
  }

  function RecordText(r: Record): string {
    IntText(r.id) + ";" + (IntText(r.parent) + ";" + (IntText(r.pct) + ";" + (IntText(r.horiz) + ";" + NamesText(r))))
  }

  /** The values written for the tree below parent, in order. */
  function WriteTree(t: Tree, parent: int): seq<string> {
    if t.Empty? then []
    else [RecordText(RecordOf(t, parent))] + WriteTree(t.child1, t.id) + WriteTree(t.child2, t.id)
  }

  // ---------------------------------------------------------------- reading

  /** string_split at ";", with the separators stripped at both ends and collapsed. */
  function Split(s: string): seq<string> {
    if s == "" then []
    else
      var e := IndexOf(s, ';', 0);
      (if e == 0 then [] else [s[..e]]) + (if e < |s| then Split(s[e + 1..]) else [])
  }

  predicate Clean(item: string) {
    item != "" && forall i :: 0 <= i < |item| ==> item[i] != ';'
  }

  function ParseFields(f: seq<string>): Option<Record> {
    if |f| < 6 then None
    else
      var id, parent, pct, horiz := ParseLong(f[0]), ParseLong(f[1]), ParseLong(f[2]), ParseLong(f[3]);
      if id.None? || parent.None? || pct.None? || horiz.None? then None
      else
        Some(Record(ToInt(id.value), ToInt(parent.value), ToInt(pct.value), ToInt(horiz.value),
                    if f[4] != "-" then Some(f[4]) else None,
                    if f[4] != "-" then Some(f[5]) else None))
  }

  /** gui_layout_window_search_by_id, then gui_layout_window_add: the first node with that
      identifier takes the new one as its first free child, and drops it when both are taken. */
  predicate Contains(t: Tree, id: int) {
    t.Node? && (t.id == id || Contains(t.child1, id) || Contains(t.child2, id))
  }

  function Attach(t: Tree, id: int, leaf: Tree): Tree
    requires Contains(t, id)
  {
    if t.id == id then
      if t.child1.Empty? then t.(child1 := leaf)
      else if t.child2.Empty? then t.(child2 := leaf)
      else t
    else if Contains(t.child1, id) then t.(child1 := Attach(t.child1, id, leaf))
    else t.(child2 := Attach(t.child2, id, leaf))
  }

  /** A node whose parent is not found becomes the root. */
  function AddNode(t: Tree, parent: int, leaf: Tree): Tree {
    if Contains(t, parent) then Attach(t, parent, leaf) else leaf
  }

  function Leaf(r: Record): Tree {
    Node(r.id, r.pct, r.horiz, r.plugin, r.buffer, Empty, Empty)
  }

  function ReadValue(t: Tree, value: string): Tree {
    var r := ParseFields(Split(value));
    if r.Some? then AddNode(t, r.value.parent, Leaf(r.value)) else t
  }

  function ReadValues(t: Tree, values: seq<string>): Tree
    decreases |values|
  {
    if values == [] then t else ReadValues(ReadValue(t, values[0]), values[1..])
  }

  // ---------------------------------------------------------------- one line

  lemma IntTextClean(n: int)
    ensures Clean(IntText(n))
  {
  }

  lemma SplitFirst(item: string, rest: string)
    requires Clean(item)
    ensures Split(item + ";" + rest) == [item] + Split(rest)
    ensures Split(item) == [item]
  {
    FirstSeparator(item, rest);
    var s := item + ";" + rest;
    assert s[..|item|] == item && s[|item| + 1..] == rest;
    assert item[..|item|] == item;
  }

  lemma FirstSeparator(a: string, b: string)
    requires ';' !in a
    ensures IndexOf(a + ";" + b, ';', 0) == |a|
  {
    var s := a + ";" + b;
    assert s[|a|] == ';';
    assert forall i :: 0 <= i < |a| ==> s[i] == a[i];
  }

  /** The names that can be read back: both absent, or both present, non-empty and free of
      separators, the plugin not being "-". */
  predicate Named(plugin: Option<string>, buffer: Option<string>) {
    || (plugin.None? && buffer.None?)
    || (plugin.Some? && buffer.Some? && Clean(plugin.value) && Clean(buffer.value) && plugin.value != "-")
  }

  predicate InRange(r: Record) {
    IsInt(r.id) && IsInt(r.parent) && IsInt(r.pct) && IsInt(r.horiz)
  }

  lemma {:induction false} ItemsAreClean(s: string)
    ensures forall i :: 0 <= i < |Split(s)| ==> Clean(Split(s)[i])
    decreases |s|
  {
    if s != "" {
      var e := IndexOf(s, ';', 0);
      if e < |s| {
        ItemsAreClean(s[e + 1..]);
      }
    }
  }

  lemma SplitTwo(a: string, b: string, rest: string)
    requires Clean(a) && Clean(b)
    ensures Split(a + ";" + (b + ";" + rest)) == [a, b] + Split(rest)
  {
    SplitFirst(b, rest);
    SplitFirst(a, b + ";" + rest);
  }

  lemma SplitFour(a: string, b: string, c: string, d: string, rest: string)
    requires Clean(a) && Clean(b) && Clean(c) && Clean(d)
    ensures Split(a + ";" + (b + ";" + (c + ";" + (d + ";" + rest)))) == [a, b, c, d] + Split(rest)
  {
    SplitTwo(c, d, rest);
    SplitTwo(a, b, c + ";" + (d + ";" + rest));
    PairThenPair(a, b, c, d, Split(rest));
  }

  lemma PairThenPair(a: string, b: string, c: string, d: string, rest: seq<string>)
    ensures [a, b] + ([c, d] + rest) == [a, b, c, d] + rest
  {
  }

  lemma SplitFields(r: Record)
    ensures Split(RecordText(r))
      == [IntText(r.id), IntText(r.parent), IntText(r.pct), IntText(r.horiz)] + Split(NamesText(r))
  {
    IntTextClean(r.id);
    IntTextClean(r.parent);
    IntTextClean(r.pct);
    IntTextClean(r.horiz);
    SplitFour(IntText(r.id), IntText(r.parent), IntText(r.pct), IntText(r.horiz), NamesText(r));
  }

  lemma NumbersReadBack(r: Record, names: seq<string>)
    requires InRange(r)
    ensures ParseFields([IntText(r.id), IntText(r.parent), IntText(r.pct), IntText(r.horiz)] + names)
      == if |names| < 2 then None
         else if names[0] != "-" then Some(r.(plugin := Some(names[0]), buffer := Some(names[1])))
         else Some(r.(plugin := None, buffer := None))
  {
    ParsePrinted(r.id);
    ParsePrinted(r.parent);
    ParsePrinted(r.pct);
    ParsePrinted(r.horiz);
  }

  lemma SplitNames(plugin: string, buffer: string)
    ensures Clean(plugin) && Clean(buffer) ==> Split(plugin + ";" + buffer) == [plugin, buffer]
    ensures var items := Split(plugin + ";" + buffer);
      |items| >= 2 && items[0] == plugin && items[1] == buffer ==> Clean(plugin) && Clean(buffer)
  {
    ItemsAreClean(plugin + ";" + buffer);
    if Clean(plugin) && Clean(buffer) {
      SplitFirst(plugin, buffer);
      SplitFirst(buffer, "");
    }
  }

  /** The value of a line is read back as it was written exactly when its names can be. */
  lemma ValueReadBack(r: Record)
    requires InRange(r)
    ensures ParseFields(Split(RecordText(r))) == Some(r) <==> Named(r.plugin, r.buffer)
  {
    SplitFields(r);
    NumbersReadBack(r, Split(NamesText(r)));
    SplitNames(NameText(r.plugin), NameText(r.buffer));
  }

  // ---------------------------------------------------------------- the tree

  function Ids(t: Tree): (s: set<int>)
    ensures forall id :: id in s <==> Contains(t, id)
  {
    if t.Empty? then {} else {t.id} + Ids(t.child1) + Ids(t.child2)
  }

  /** Identifiers are distinct and no node has a second child only. */
  predicate WellShaped(t: Tree) {
    t.Node? ==>
      && WellShaped(t.child1) && WellShaped(t.child2)
      && (t.child1.Empty? ==> t.child2.Empty?)
      && t.id !in Ids(t.child1) && t.id !in Ids(t.child2) && Ids(t.child1) !! Ids(t.child2)
  }

  /** Each line can be read back. */
  predicate Readable(t: Tree) {
    t.Node? ==>
      && InRange(RecordOf(t, 0)) && Named(t.plugin, t.buffer)
      && Readable(t.child1) && Readable(t.child2)
  }

  predicate Writable(t: Tree) {
    WellShaped(t) && Readable(t)
  }

  /** The records written, in order. */
  function Records(t: Tree, parent: int): seq<Record> {
    if t.Empty? then []
    else [RecordOf(t, parent)] + Records(t.child1, t.id) + Records(t.child2, t.id)
  }

  function Texts(records: seq<Record>): seq<string> {
    if records == [] then [] else [RecordText(records[0])] + Texts(records[1..])
  }

  lemma {:induction false} TextsConcat(a: seq<Record>, b: seq<Record>)
    ensures Texts(a + b) == Texts(a) + Texts(b)
  {
    if a == [] {
      assert a + b == b;
    } else {
      assert (a + b)[1..] == a[1..] + b;
      TextsConcat(a[1..], b);
    }
  }

  lemma {:induction false} LinesAreRecords(t: Tree, parent: int)
    ensures WriteTree(t, parent) == Texts(Records(t, parent))
  {
    if t.Node? {
      var first, r1, r2 := [RecordOf(t, parent)], Records(t.child1, t.id), Records(t.child2, t.id);
      LinesAreRecords(t.child1, t.id);
      LinesAreRecords(t.child2, t.id);
      TextsConcat(first + r1, r2);
      TextsConcat(first, r1);
    }
  }

  /** Every parent is written before its children. */
  lemma {:induction false} ParentsFirst(t: Tree, parent: int, k: nat)
    requires k < |Records(t, parent)|
    ensures var records := Records(t, parent);
      records[k].parent == parent || exists j :: 0 <= j < k && records[j].id == records[k].parent
  {
    var records := Records(t, parent);
    var r1, r2 := Records(t.child1, t.id), Records(t.child2, t.id);
    assert records[0].id == t.id;
    if 0 < k <= |r1| {
      ParentsFirst(t.child1, t.id, k - 1);
      if j :| 0 <= j < k - 1 && r1[j].id == r1[k - 1].parent {
        assert records[1 + j].id == records[k].parent;
      }
    } else if |r1| < k {
      var i := k - 1 - |r1|;
      ParentsFirst(t.child2, t.id, i);
      if j :| 0 <= j < i && r2[j].id == r2[i].parent {
        assert records[1 + |r1| + j].id == records[k].parent;
      }
    }
  }

  // ---------------------------------------------------------------- rebuilding

  /** The node found for id has room for a child. */
  predicate HasRoom(t: Tree, id: int)
    requires Contains(t, id)
  {
    if t.id == id then t.child1.Empty? || t.child2.Empty?
    else if Contains(t.child1, id) then HasRoom(t.child1, id)
    else HasRoom(t.child2, id)
  }

  lemma {:induction false} AttachIds(t: Tree, p: int, n: Tree)
    requires Contains(t, p) && HasRoom(t, p)
    ensures Ids(Attach(t, p, n)) == Ids(t) + Ids(n)
  {
    if t.id != p {
      if Contains(t.child1, p) {
        AttachIds(t.child1, p, n);
      } else {
        AttachIds(t.child2, p, n);
      }
    }
  }

  /** A child of the node just attached can be attached to it beforehand. */
  lemma {:induction false} AttachInside(t: Tree, p: int, n: Tree, x: Tree)
    requires Contains(t, p) && HasRoom(t, p)
    requires n.Node? && n.id !in Ids(t) && HasRoom(n, n.id)
    ensures Contains(Attach(t, p, n), n.id) && HasRoom(Attach(t, p, n), n.id)
    ensures Attach(Attach(t, p, n), n.id, x) == Attach(t, p, Attach(n, n.id, x))
  {
    AttachIds(t, p, n);
    if t.id != p {
      if Contains(t.child1, p) {
        AttachInside(t.child1, p, n, x);
      } else {
        AttachInside(t.child2, p, n, x);
      }
    }
  }

  function AddRecords(t: Tree, records: seq<Record>): Tree
    decreases |records|
  {
    if records == [] then t else AddRecords(AddNode(t, records[0].parent, Leaf(records[0])), records[1..])
  }

  lemma {:induction false} AddConcat(t: Tree, a: seq<Record>, b: seq<Record>)
    ensures AddRecords(t, a + b) == AddRecords(AddRecords(t, a), b)
    decreases |a|
  {
    if a == [] {
      assert a + b == b;
    } else {
      assert (a + b)[1..] == a[1..] + b;
      AddConcat(AddNode(t, a[0].parent, Leaf(a[0])), a[1..], b);
    }
  }

  /** The node first, then its children. */
  lemma AddThree(s: Tree, t: Tree, p: int)
    requires t.Node?
    ensures AddRecords(s, Records(t, p))
         == AddRecords(AddRecords(AddNode(s, p, Leaf(RecordOf(t, p))), Records(t.child1, t.id)),
                       Records(t.child2, t.id))
  {
    var first, r1, r2 := [RecordOf(t, p)], Records(t.child1, t.id), Records(t.child2, t.id);
    AddConcat(s, first + r1, r2);
    AddConcat(s, first, r1);
  }

  /** Adding the records written below p attaches the whole subtree to p. */
  lemma {:induction false} AddSubtree(s: Tree, p: int, t: Tree)
    requires Contains(s, p) && HasRoom(s, p) && t.Node? && WellShaped(t) && Ids(t) !! Ids(s)
    ensures AddRecords(s, Records(t, p)) == Attach(s, p, t)
    decreases t
  {
    AddThree(s, t, p);
    AttachIds(s, p, Leaf(RecordOf(t, p)));
    AddChildren(s, p, t);
  }

  /** Adding the children of t, once t itself is attached to p as a leaf. */
  lemma {:induction false} AddChildren(s: Tree, p: int, t: Tree)
    requires Contains(s, p) && HasRoom(s, p) && t.Node? && WellShaped(t) && Ids(t) !! Ids(s)
    ensures AddRecords(AddRecords(Attach(s, p, Leaf(RecordOf(t, p))), Records(t.child1, t.id)),
                       Records(t.child2, t.id))
      == Attach(s, p, t)
    decreases t, 0
  {
    var leaf := Leaf(RecordOf(t, p));
    if t.child1.Node? {
      var one := leaf.(child1 := t.child1);
      AttachIds(s, p, leaf);
      AttachInside(s, p, leaf, t.child1);
      AddSubtree(Attach(s, p, leaf), t.id, t.child1);
      if t.child2.Node? {
        AttachIds(s, p, one);
        AttachInside(s, p, one, t.child2);
        AddSubtree(Attach(s, p, one), t.id, t.child2);
      }
    }
  }

  /** The records of a tree, whatever its names and numbers, rebuild it in an empty layout. */
  lemma TreeOfRecords(t: Tree)
    requires WellShaped(t)
    ensures AddRecords(Empty, Records(t, 0)) == t
  {
    if t.Node? {
      var leaf := Leaf(RecordOf(t, 0));
      AddThree(Empty, t, 0);
      if t.child1.Node? {
        AddSubtree(leaf, t.id, t.child1);
        if t.child2.Node? {
          AddSubtree(leaf.(child1 := t.child1), t.id, t.child2);
        }
      }
    }
  }

  /** The records determine the tree. */
  lemma RecordsDetermineTree(t: Tree, u: Tree)
    requires WellShaped(t) && WellShaped(u)
    ensures Records(t, 0) == Records(u, 0) ==> t == u
  {
    TreeOfRecords(t);
    TreeOfRecords(u);
  }

  // ---------------------------------------------------------------- through the values

  predicate AllReadable(records: seq<Record>) {
    forall k :: 0 <= k < |records| ==> InRange(records[k]) && Named(records[k].plugin, records[k].buffer)
  }

  lemma {:induction false} RecordsReadable(t: Tree, parent: int)
    requires Readable(t) && IsInt(parent)
    ensures AllReadable(Records(t, parent))
  {
    if t.Node? {
      RecordsReadable(t.child1, t.id);
      RecordsReadable(t.child2, t.id);
    }
  }

  lemma {:induction false} ReadTexts(s: Tree, records: seq<Record>)
    requires AllReadable(records)
    ensures ReadValues(s, Texts(records)) == AddRecords(s, records)
    decreases |records|
  {
    if records != [] {
      ValueReadBack(records[0]);
      ReadTexts(AddNode(s, records[0].parent, Leaf(records[0])), records[1..]);
    }
  }

  /** Reading what was written below p is adding its records. */
  lemma ReadWritten(s: Tree, t: Tree, p: int)
    requires Readable(t) && IsInt(p)
    ensures ReadValues(s, WriteTree(t, p)) == AddRecords(s, Records(t, p))
  {
    RecordsReadable(t, p);
    LinesAreRecords(t, p);
    ReadTexts(s, Records(t, p));
  }

  /** Reading what was written below p attaches the whole subtree to p. */
  lemma ReadSubtree(s: Tree, p: int, t: Tree)
    requires IsInt(p) && Contains(s, p) && HasRoom(s, p)
    requires t.Node? && Writable(t) && Ids(t) !! Ids(s)
    ensures ReadValues(s, WriteTree(t, p)) == Attach(s, p, t)
  {
    ReadWritten(s, t, p);
    AddSubtree(s, p, t);
  }

  /** Reading the lines of a tree into an empty layout rebuilds the tree. */
  lemma LayoutRestored(t: Tree)
    requires Writable(t)
    ensures ReadValues(Empty, WriteTree(t, 0)) == t
  {
    ReadWritten(Empty, t, 0);
    TreeOfRecords(t);
  }

  // ---------------------------------------------------------------- values that fit no tree

  /** A node whose parent is not there becomes the root, and what had been read is dropped. */
  lemma StrayNode(t: Tree, r: Record)
    requires InRange(r) && Named(r.plugin, r.buffer) && r.parent !in Ids(t)
    ensures ReadValue(t, RecordText(r)) == Node(r.id, r.pct, r.horiz, r.plugin, r.buffer, Empty, Empty)
  {
    ValueReadBack(r);
  }

  /** A third child is dropped. */
  lemma {:induction false} NoRoom(t: Tree, p: int, leaf: Tree)
    requires Contains(t, p) && !HasRoom(t, p)
    ensures Attach(t, p, leaf) == t
  {
    if t.id != p {
      if Contains(t.child1, p) {
        NoRoom(t.child1, p, leaf);
      } else {
        NoRoom(t.child2, p, leaf);
      }
    }
  }

  lemma ThirdChild(t: Tree, r: Record)
    requires InRange(r) && Named(r.plugin, r.buffer) && Contains(t, r.parent) && !HasRoom(t, r.parent)
    ensures ReadValue(t, RecordText(r)) == t
  {
    ValueReadBack(r);
    NoRoom(t, r.parent, Leaf(r));
  }

  /** A value with fewer than six fields, or whose numbers are none, changes nothing. */
  lemma MalformedValue(t: Tree, value: string, k: nat)
    requires k < 4 && var f := Split(value); |f| < 6 || ParseLong(f[k]).None?
    ensures ReadValue(t, value) == t
  {
    assert k == 0 || k == 1 || k == 2 || k == 3;
  }

  lemma SmallNumbers()
    ensures IntText(0) == "0" && IntText(1) == "1" && IntText(2) == "2" && IntText(50) == "50"
  {
    assert NatText(5) == "5";
  }

  /** The text of a record, on an example. */
  lemma RecordExample(r: Record)
    requires r == Record(2, 1, 50, 0, Some("core"), None)
    ensures RecordText(r) == "2" + ";" + ("1" + ";" + ("50" + ";" + ("0" + ";" + ("core" + ";" + "-"))))
  {
    SmallNumbers();
  }

  // ---------------------------------------------------------------- what the lines determine

  lemma FieldThenRest(a: string, b: string, c: string, d: string)
    requires ';' !in a && ';' !in c && a + ";" + b == c + ";" + d
    ensures a == c && b == d
  {
    FirstSeparator(a, b);
    FirstSeparator(c, d);
    assert a == (a + ";" + b)[..|a|] && b == (a + ";" + b)[|a| + 1..];
    assert c == (c + ";" + d)[..|c|] && d == (c + ";" + d)[|c| + 1..];
  }

  lemma NumberThenRest(m: int, n: int, b: string, d: string)
    requires IsInt(m) && IsInt(n) && IntText(m) + ";" + b == IntText(n) + ";" + d
    ensures m == n && b == d
  {
    IntTextClean(m);
    IntTextClean(n);
    FieldThenRest(IntText(m), b, IntText(n), d);
    ParsePrinted(m);
    ParsePrinted(n);
  }

  lemma NumbersTell(r: Record, q: Record)
    requires InRange(r) && InRange(q) && RecordText(r) == RecordText(q)
    ensures r.id == q.id && r.parent == q.parent && r.pct == q.pct && r.horiz == q.horiz
    ensures NamesText(r) == NamesText(q)
  {
    var a, b := IntText(r.horiz) + ";" + NamesText(r), IntText(q.horiz) + ";" + NamesText(q);
    var c, d := IntText(r.pct) + ";" + a, IntText(q.pct) + ";" + b;
    NumberThenRest(r.id, q.id, IntText(r.parent) + ";" + c, IntText(q.parent) + ";" + d);
    NumberThenRest(r.parent, q.parent, c, d);
    NumberThenRest(r.pct, q.pct, a, b);
    NumberThenRest(r.horiz, q.horiz, NamesText(r), NamesText(q));
  }

  predicate AllInRange(t: Tree) {
    t.Node? ==> InRange(RecordOf(t, 0)) && AllInRange(t.child1) && AllInRange(t.child2)
  }

  /** The tree with the text of the two names instead of the names. */
  function Masked(t: Tree): Tree {
    if t.Empty? then Empty
    else Node(t.id, t.pct, t.horiz, None, Some(NamesText(RecordOf(t, 0))), Masked(t.child1), Masked(t.child2))
  }

  function MaskedRecords(records: seq<Record>): (r: seq<Record>)
    ensures |r| == |records|
  {
    if records == [] then []
    else [records[0].(plugin := None, buffer := Some(NamesText(records[0])))] + MaskedRecords(records[1..])
  }

  lemma {:induction false} MaskedConcat(a: seq<Record>, b: seq<Record>)
    ensures MaskedRecords(a + b) == MaskedRecords(a) + MaskedRecords(b)
  {
    if a == [] {
      assert a + b == b;
    } else {
      assert (a + b)[0] == a[0] && (a + b)[1..] == a[1..] + b;
      MaskedConcat(a[1..], b);
    }
  }

  lemma {:induction false} RecordsOfMasked(t: Tree, parent: int)
    ensures Records(Masked(t), parent) == MaskedRecords(Records(t, parent))
  {
    if t.Node? {
      var first, r1, r2 := [RecordOf(t, parent)], Records(t.child1, t.id), Records(t.child2, t.id);
      RecordsOfMasked(t.child1, t.id);
      RecordsOfMasked(t.child2, t.id);
      MaskedConcat(first + r1, r2);
      MaskedConcat(first, r1);
      assert first[1..] == [];
    }
  }

  lemma {:induction false} MaskedShape(t: Tree)
    ensures Ids(Masked(t)) == Ids(t) && (WellShaped(t) ==> WellShaped(Masked(t)))
  {
    if t.Node? {
      MaskedShape(t.child1);
      MaskedShape(t.child2);
    }
  }

  predicate RecordsInRange(records: seq<Record>) {
    forall k :: 0 <= k < |records| ==> InRange(records[k])
  }

  lemma {:induction false} InRangeRecords(t: Tree, parent: int)
    requires AllInRange(t) && IsInt(parent)
    ensures RecordsInRange(Records(t, parent))
  {
    if t.Node? {
      InRangeRecords(t.child1, t.id);
      InRangeRecords(t.child2, t.id);
    }
  }

  lemma TextsFirst(a: seq<Record>)
    ensures if a == [] then Texts(a) == []
            else Texts(a) != [] && Texts(a)[0] == RecordText(a[0]) && Texts(a)[1..] == Texts(a[1..])
  {
  }

  lemma {:induction false} TextsTell(a: seq<Record>, b: seq<Record>)
    requires RecordsInRange(a) && RecordsInRange(b) && Texts(a) == Texts(b)
    ensures MaskedRecords(a) == MaskedRecords(b)
  {
    TextsFirst(a);
    TextsFirst(b);
    if a != [] {
      NumbersTell(a[0], b[0]);
      TextsTell(a[1..], b[1..]);
    }
  }

  lemma {:induction false} MaskedWrites(t: Tree, u: Tree, parent: int)
    requires Masked(t) == Masked(u)
    ensures WriteTree(t, parent) == WriteTree(u, parent)
  {
    if t.Node? {
      MaskedWrites(t.child1, u.child1, t.id);
      MaskedWrites(t.child2, u.child2, t.id);
      assert NamesText(RecordOf(t, parent)) == NamesText(RecordOf(t, 0));
      assert NamesText(RecordOf(u, parent)) == NamesText(RecordOf(u, 0));
    }
  }

  /** Two trees write the same lines exactly when they are equal but for names that give the same text. */
  lemma SameLinesExact(t: Tree, u: Tree)
    requires WellShaped(t) && WellShaped(u) && AllInRange(t) && AllInRange(u)
    ensures WriteTree(t, 0) == WriteTree(u, 0) <==> Masked(t) == Masked(u)
  {
    if WriteTree(t, 0) == WriteTree(u, 0) {
      LinesAreRecords(t, 0);
      LinesAreRecords(u, 0);
      InRangeRecords(t, 0);
      InRangeRecords(u, 0);
      TextsTell(Records(t, 0), Records(u, 0));
      RecordsOfMasked(t, 0);
      RecordsOfMasked(u, 0);
      MaskedShape(t);
      MaskedShape(u);
      RecordsDetermineTree(Masked(t), Masked(u));
    } else if Masked(t) == Masked(u) {
      MaskedWrites(t, u, 0);
    }
  }

  /** Names whose text is that of no others: the plugin has no separator, and absent names cannot be taken
      for "-". All those of Named are; these may also be empty, and the buffer may have separators. */
  predicate Telling(plugin: Option<string>, buffer: Option<string>) {
    if plugin.Some? then ';' !in plugin.value && plugin.value != "-" && buffer.Some?
    else buffer != Some("-")
  }

  predicate AllTelling(t: Tree) {
    t.Node? ==> Telling(t.plugin, t.buffer) && AllTelling(t.child1) && AllTelling(t.child2)
  }

  lemma {:induction false} ReadableTells(t: Tree)
    requires Readable(t)
    ensures AllInRange(t) && AllTelling(t)
  {
    if t.Node? {
      ReadableTells(t.child1);
      ReadableTells(t.child2);
    }
  }

  lemma NamesTell(r: Record, q: Record)
    requires Telling(r.plugin, r.buffer) && Telling(q.plugin, q.buffer) && NamesText(r) == NamesText(q)
    ensures r.plugin == q.plugin && r.buffer == q.buffer
  {
    assert ';' !in "-";
    FieldThenRest(NameText(r.plugin), NameText(r.buffer), NameText(q.plugin), NameText(q.buffer));
  }

  lemma {:induction false} MaskTells(t: Tree, u: Tree)
    requires AllTelling(t) && AllTelling(u) && Masked(t) == Masked(u)
    ensures t == u
  {
    if t.Node? {
      NamesTell(RecordOf(t, 0), RecordOf(u, 0));
      MaskTells(t.child1, u.child1);
      MaskTells(t.child2, u.child2);
    }
  }

  /** With such names the lines determine the tree, even when some of them cannot be read back. */
  lemma LinesDetermineTree(t: Tree, u: Tree)
    requires WellShaped(t) && WellShaped(u) && AllInRange(t) && AllInRange(u) && AllTelling(t) && AllTelling(u)
    ensures WriteTree(t, 0) == WriteTree(u, 0) ==> t == u
  {
    SameLinesExact(t, u);
    if Masked(t) == Masked(u) {
      MaskTells(t, u);
    }
  }
}
