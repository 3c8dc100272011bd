/**
 * Absolute paths of namespace nodes: printing them into a buffer of exactly the
 * right size and finding nodes by path (uacpi/source/namespace.c).
 */
module NamespacePath {
  import opened NamespaceTree
  import Namespace
  import NamespaceWalk

  // ----- printing -----

  /** The path of a node: a backslash, then the names from the root down with dots between them. */
  ghost function PathOf(m: Nodes, t: Tree, root: Addr, c: Addr): string
    requires TreeOk(m, t, root) && c in t.kids
    decreases t.level[c]
  {
    if t.level[c] == 0 then "\\"
    else
      NamespaceWalk.ParentFacts(m, t, root, c);
      var p := m[c].parent;
      PathOf(m, t, root, p) + (if t.level[p] == 0 then "" else ".") + m[c].name
  }

  lemma {:induction false} PathLength(m: Nodes, t: Tree, root: Addr, c: Addr)
    requires TreeOk(m, t, root) && c in t.kids
    ensures |PathOf(m, t, root, c)| == 1 + 4 * t.level[c] + if t.level[c] > 1 then t.level[c] - 1 else 0
    decreases t.level[c]
  {
    if t.level[c] != 0 {
      NamespaceWalk.ParentFacts(m, t, root, c);
      PathLength(m, t, root, m[c].parent);
    }
  }

  /** Only the root is at level 0. */
  lemma LevelZero(m: Nodes, t: Tree, root: Addr, c: Addr)
    requires TreeOk(m, t, root) && c in t.kids
    ensures c in t.level && (t.level[c] == 0 <==> c == root)
    ensures c in m && (m[c].parent == NULL <==> c == root)
  {
    assert Live(m, c) && Below(t, c);
    if c != root {
      assert Hangs(m, t, c);
      assert Below(t, m[c].parent);
    }
  }

  /** The number of nodes above one. */
  method Depth(m: Nodes, node: Addr, ghost t: Tree, ghost root: Addr) returns (depth: nat)
    requires TreeOk(m, t, root) && node in t.kids
    ensures depth == t.level[node]
  {
    hide TreeOk;
    depth := 0;
    var n := node;
    LevelZero(m, t, root, n);
    while m[n].parent != NULL
      invariant n in t.kids && n in t.level && node in t.level && n in m && depth + t.level[n] == t.level[node]
      invariant m[n].parent == NULL <==> t.level[n] == 0
      decreases t.level[n]
    {
      NamespaceWalk.ParentFacts(m, t, root, n);
      n := m[n].parent;
      LevelZero(m, t, root, n);
      depth := depth + 1;
    }
  }

  lemma PathStep(m: Nodes, t: Tree, root: Addr, c: Addr)
    requires TreeOk(m, t, root) && c in t.kids && c != root
    ensures c in m && m[c].parent in t.kids && c in t.level && m[c].parent in t.level
      && t.level[m[c].parent] < t.level[c]
    ensures PathOf(m, t, root, c)
         == PathOf(m, t, root, m[c].parent) + (if m[c].parent == root then "" else ".") + m[c].name
  {
    LevelZero(m, t, root, c);
    NamespaceWalk.ParentFacts(m, t, root, c);
    LevelZero(m, t, root, m[c].parent);
  }

  /** Prints a node's path into a buffer whose size it works out first; the path and its terminator fill it exactly. */
  method GenerateAbsolutePath(m: Nodes, root: Addr, node: Addr, ghost t: Tree) returns (path: array<char>)
    requires TreeOk(m, t, root) && node in t.kids
    ensures fresh(path)
    ensures path[..] == PathOf(m, t, root, node) + ['\0']
  {
    hide TreeOk, PathOf;
    var depth := Depth(m, node, t, root);
    depth := depth + 1;
    var bytesNeeded := 1 + (depth - 1) * 4;
    bytesNeeded := bytesNeeded + if depth > 2 then depth - 2 else 0;
    bytesNeeded := bytesNeeded + 1;
    PathLength(m, t, root, node);
    ghost var full := PathOf(m, t, root, node) + ['\0'];
    path := new char[bytesNeeded](_ => ' ');
    path[0] := '\\';
    var offset := bytesNeeded - 1;
    path[offset] := '\0';
    var n := node;
    PathHead(m, t, root, node);
    LevelZero(m, t, root, node);
    while n != root
      invariant n in t.kids && n in t.level && path.Length == bytesNeeded == |full|
      invariant offset == |PathOf(m, t, root, n)| && 0 < offset < bytesNeeded
      invariant PathOf(m, t, root, n) == full[..offset]
      invariant path[0] == '\\' && path[offset..] == full[offset..]
      decreases t.level[n]
    {
      PathEnds(m, t, root, n, full, offset);
      offset := offset - 4;
      WriteName(path, offset, m[n].name, full);
      n := m[n].parent;
      if n != root {
        offset := offset - 1;
        WriteDot(path, offset, full);
      }
    }
    PathHead(m, t, root, root);
    LevelZero(m, t, root, root);
    assert path[..] == [path[0]] + path[1..];
    assert full == full[..1] + full[1..];
  }

  /** What a path ends with: the node's name, behind a dot unless it hangs below the root, behind its parent's path. */
  lemma PathEnds(m: Nodes, t: Tree, root: Addr, c: Addr, full: string, offset: nat)
    requires TreeOk(m, t, root) && c in t.kids && c != root
    requires offset <= |full| && PathOf(m, t, root, c) == full[..offset]
    ensures c in m && m[c].parent in t.kids && c in t.level && m[c].parent in t.level
    ensures t.level[m[c].parent] < t.level[c]
    ensures var at := if m[c].parent == root then offset - 4 else offset - 5;
      && 0 < at && full[offset - 4..offset] == m[c].name && (m[c].parent != root ==> full[at] == '.')
      && |PathOf(m, t, root, m[c].parent)| == at && PathOf(m, t, root, m[c].parent) == full[..at]
  {
    hide TreeOk, PathOf;
    PathStep(m, t, root, c);
    PathHead(m, t, root, m[c].parent);
    var path, above := PathOf(m, t, root, c), PathOf(m, t, root, m[c].parent);
    var at := |above|;
    assert path[..at] == above && path[|path| - 4..] == m[c].name;
    assert full[..offset][..at] == full[..at] && full[..offset][offset - 4..] == full[offset - 4..offset];
  }

  /** Puts a dot in front of what is already there. */
  method WriteDot(path: array<char>, at: nat, ghost full: string)
    requires 0 < at < path.Length == |full| && full[at] == '.' && path[at + 1..] == full[at + 1..]
    modifies path
    ensures path[0] == old(path[0]) && path[at..] == full[at..]
  {
    path[at] := '.';
    assert path[at + 1..] == full[at + 1..];
    assert path[at..] == [path[at]] + path[at + 1..] && full[at..] == [full[at]] + full[at + 1..];
  }

  lemma PathHead(m: Nodes, t: Tree, root: Addr, c: Addr)
    requires TreeOk(m, t, root) && c in t.kids
    ensures |PathOf(m, t, root, c)| >= 1 && PathOf(m, t, root, c)[0] == '\\'
    ensures c == root ==> PathOf(m, t, root, c) == "\\"
    decreases t.level[c]
  {
    LevelZero(m, t, root, c);
    if t.level[c] != 0 {
      NamespaceWalk.ParentFacts(m, t, root, c);
      PathHead(m, t, root, m[c].parent);
    }
  }

  /** Copies a name over four bytes. */
  method WriteName(path: array<char>, at: nat, name: Name, ghost full: string)
    requires at + 4 <= path.Length == |full| && at > 0
    requires full[at..at + 4] == name && path[at + 4..] == full[at + 4..]
    modifies path
    ensures path[0] == old(path[0]) && path[at..] == full[at..]
  {
    path[at], path[at + 1], path[at + 2], path[at + 3] := name[0], name[1], name[2], name[3];
    assert path[at + 4..] == full[at + 4..];
    assert full[at..] == full[at..at + 4] + full[at + 4..];
    assert path[at..] == path[at..at + 4] + path[at + 4..];
    assert path[at..at + 4] == [name[0], name[1], name[2], name[3]];
    assert name == [name[0], name[1], name[2], name[3]];
  }

  // ----- resolving -----

  /** The first node of a list with a name, or NULL. */
  function FindNamed(m: Nodes, s: seq<Addr>, name: Name): Addr {
    if s == [] then NULL
    else if s[0] in m && m[s[0]].name == name then s[0]
    else FindNamed(m, s[1..], name)
  }

  /** Finds a child by name: the first one in order. */
  method FindSubNode(m: Nodes, parent: Addr, name: Name, ghost t: Tree, ghost root: Addr) returns (node: Addr)
    requires TreeOk(m, t, root) && parent in t.kids && parent in m
    ensures node == FindNamed(m, t.kids[parent], name)
  {
    hide TreeOk;
    Namespace.InTree(m, t, root, parent);
    Namespace.ListFacts(m, t, root, parent);
    ghost var s, i := t.kids[parent], 0;
    node := m[parent].child;
    while node != NULL
      invariant i <= |s| && node == At(s, i) && FindNamed(m, s, name) == FindNamed(m, s[i..], name)
      decreases |s| - i
    {
      if m[node].name == name {
        return;
      }
      node := m[node].next;
      i := i + 1;
    }
  }

  /** How many characters the next segment takes: up to four, none of them a dot. */
  function SegmentLength(s: string, limit: nat): (n: nat)
    ensures n <= limit && n <= |s|
  {
    if limit == 0 || s == "" || s[0] == '.' then 0 else 1 + SegmentLength(s[1..], limit - 1)
  }

  function Pad(s: string): (n: Name)
    requires |s| <= 4
  {
    s + seq(4 - |s|, _ => '_')
  }

  /** The names along a path that has no prefix left. */
  function Segments(s: string): seq<Name> {
    if s == "" then []
    else
      var r := if s[0] == '.' then s[1..] else s;
      var n := SegmentLength(r, 4);
      [Pad(r[..n])] + Segments(r[n..])
  }

  /** One segment, padded to four characters with underscores, and the characters it took. */
  method SegmentToName(path: string, cursor: nat) returns (name: Name, after: nat)
    requires cursor <= |path|
    ensures after == cursor + SegmentLength(path[cursor..], 4)
    ensures name == Pad(path[cursor..after])
  {
    var text := "";
    after := cursor;
    for offset := 0 to 4
      invariant cursor <= after <= |path| && |text| == offset && after - cursor <= offset
      invariant SegmentLength(path[cursor..], 4) == after - cursor + SegmentLength(path[after..], 4 - offset)
      invariant after - cursor < offset ==> after == |path| || path[after] == '.'
      invariant text == path[cursor..after] + seq(offset - (after - cursor), _ => '_')
    {
      if after == |path| || path[after] == '.' {
        text := text + ['_'];
      } else {
        assert path[after..][1..] == path[after + 1..];
        text := text + [path[after]];
        after := after + 1;
      }
    }
    name := text;
  }

  /** Where a path's prefix leads: a node, the rest of the path, and whether the prefix moved at all. */
  datatype Prefixed = Nowhere | From(node: Addr, rest: string, moved: bool)

  /** A backslash leads to the root and each caret to the parent; carets do not go before a backslash or above
      the root. */
  ghost function Prefix(m: Nodes, t: Tree, root: Addr, cur: Addr, s: string, carets: bool): (r: Prefixed)
    requires TreeOk(m, t, root) && cur in t.kids
    ensures r.From? ==> r.node in t.kids && |r.rest| <= |s| && r.rest == s[|s| - |r.rest|..]
    decreases |s|
  {
    if s == "" then From(cur, s, carets)
    else if s[0] == '\\' then (if carets then Nowhere else From(root, s[1..], true))
    else if s[0] != '^' then From(cur, s, carets)
    else if cur == root then Nowhere
    else
      PathStep(m, t, root, cur);
      Prefix(m, t, root, m[cur].parent, s[1..], true)
  }

  /** Following names down from a node. */
  ghost function Descend(m: Nodes, t: Tree, a: Addr, names: seq<Name>): Addr
    decreases |names|
  {
    if names == [] then a
    else if a !in t.kids then NULL
    else Descend(m, t, FindNamed(m, t.kids[a], names[0]), names[1..])
  }

  /** The nearest proper ancestor's child with a name. */
  ghost function SearchAbove(m: Nodes, t: Tree, root: Addr, a: Addr, name: Name): Addr
    requires TreeOk(m, t, root) && a in t.kids
    decreases t.level[a]
  {
    if a == root then NULL
    else
      PathStep(m, t, root, a);
      var c := FindNamed(m, t.kids[m[a].parent], name);
      if c != NULL then c else SearchAbove(m, t, root, m[a].parent, name)
  }

  /** Fault is the null dereference of a search that has no start to go up from. */
  datatype Result = Found(node: Addr) | NotFound | InvalidPath | Denied | Fault

  /** The node a path names, before permissions; without a start it is looked for from the root. */
  ghost function Lookup(m: Nodes, t: Tree, root: Addr, start: Addr, path: string, above: bool): Result
    requires TreeOk(m, t, root) && (start in t.kids || start == NULL) && root in t.kids
  {
    match Prefix(m, t, root, if start == NULL then root else start, path, false)
    case Nowhere => InvalidPath
    case From(n, rest, moved) =>
      var names := Segments(rest);
      var d := Descend(m, t, n, names);
      if d != NULL then Found(d)
      else if !(above && !moved && |names| == 1) then NotFound
      else if start !in t.kids then Fault
      else if SearchAbove(m, t, root, start, names[0]) != NULL then Found(SearchAbove(m, t, root, start, names[0]))
      else NotFound
  }

  /** Temporary nodes are out of bounds for a caller that asks for permanent ones only. */
  function Permitted(m: Nodes, r: Result, permanentOnly: bool): Result {
    if r.Found? && r.node in m && m[r.node].temporary && permanentOnly then Denied else r
  }

  lemma {:induction false} FindNamedIsChild(m: Nodes, s: seq<Addr>, name: Name)
    ensures var c := FindNamed(m, s, name);
            c != NULL ==> c in s && c in m && m[c].name == name
  {
    if s != [] {
      FindNamedIsChild(m, s[1..], name);
    }
  }

  /** A search that comes back with a node of the tree. */
  lemma FoundInTree(m: Nodes, t: Tree, root: Addr, a: Addr, name: Name)
    requires TreeOk(m, t, root) && a in t.kids
    ensures var c := FindNamed(m, t.kids[a], name);
            c == NULL || (c in t.kids && c in m)
    ensures NULL !in t.kids
  {
    FindNamedIsChild(m, t.kids[a], name);
    assert Below(t, a);
  }

  /** Consumes the prefix of a path. */
  method SkipPrefix(m: Nodes, root: Addr, start: Addr, path: string, ghost t: Tree)
    returns (ok: bool, node: Addr, cursor: nat, moved: bool)
    requires TreeOk(m, t, root) && start in t.kids
    ensures ok <==> Prefix(m, t, root, start, path, false).From?
    ensures ok ==> cursor <= |path| && Prefix(m, t, root, start, path, false) == From(node, path[cursor..], moved)
  {
    hide TreeOk, Prefix;
    ok, node, cursor, moved := true, start, 0, false;
    assert path[0..] == path;
    while true
      invariant cursor <= |path| && node in t.kids && ok
      invariant Prefix(m, t, root, start, path, false) == Prefix(m, t, root, node, path[cursor..], moved)
      decreases |path| - cursor
    {
      PrefixStep(m, t, root, node, path, cursor, moved);
      if cursor == |path| {
        return;
      }
      if path[cursor] == '\\' {
        if moved {
          ok := false;
          return;
        }
        node, cursor, moved := root, cursor + 1, true;
        return;
      }
      if path[cursor] != '^' {
        return;
      }
      if node == root {
        ok := false;
        return;
      }
      PathStep(m, t, root, node);
      node, cursor, moved := m[node].parent, cursor + 1, true;
    }
  }

  lemma PrefixStep(m: Nodes, t: Tree, root: Addr, cur: Addr, path: string, at: nat, carets: bool)
    requires TreeOk(m, t, root) && cur in t.kids && at <= |path|
    ensures cur != root ==> cur in m && m[cur].parent in t.kids
    ensures Prefix(m, t, root, cur, path[at..], carets) ==
      if at == |path| then From(cur, path[at..], carets)
      else if path[at] == '\\' then (if carets then Nowhere else From(root, path[at + 1..], true))
      else if path[at] != '^' then From(cur, path[at..], carets)
      else if cur == root then Nowhere
      else Prefix(m, t, root, m[cur].parent, path[at + 1..], true)
  {
    hide TreeOk;
    if cur != root {
      PathStep(m, t, root, cur);
    }
    if at < |path| {
      assert path[at..][1..] == path[at + 1..] && path[at..][0] == path[at];
    }
  }

  /** Walks up from a node until some ancestor has a child with the name. */
  method SearchAncestors(m: Nodes, root: Addr, start: Addr, name: Name, ghost t: Tree) returns (node: Addr)
    requires TreeOk(m, t, root) && start in t.kids
    ensures node == SearchAbove(m, t, root, start, name)
  {
    hide TreeOk;
    LevelZero(m, t, root, start);
    var parent := m[start].parent;
    ghost var below := start;
    while parent != NULL
      invariant below in t.kids && below in t.level && below in m && parent == m[below].parent
      invariant parent == NULL <==> below == root
      invariant SearchAbove(m, t, root, start, name) == SearchAbove(m, t, root, below, name)
      decreases t.level[below]
    {
      PathStep(m, t, root, below);
      LevelZero(m, t, root, parent);
      node := FindSubNode(m, parent, name, t, root);
      if node != NULL {
        return;
      }
      below := parent;
      parent := m[parent].parent;
    }
    node := NULL;
  }

  /** Finds the node a path names from a start node, or from the root when none is given. */
  method Resolve(m: Nodes, root: Addr, start: Addr, path: string, above: bool, permanentOnly: bool, ghost t: Tree)
    returns (r: Result)
    requires TreeOk(m, t, root) && (start in t.kids || start == NULL) && root in t.kids
    ensures r == Permitted(m, Lookup(m, t, root, start, path, above), permanentOnly)
    ensures r.Found? ==> !(permanentOnly && r.node in m && m[r.node].temporary)
    ensures r != Lookup(m, t, root, start, path, above) ==>
      var l := Lookup(m, t, root, start, path, above);
      r.Denied? && permanentOnly && l.Found? && l.node in m && m[l.node].temporary
  {
    hide TreeOk, Prefix, Segments, Descend, SearchAbove;
    var begin := if start == NULL then root else start;
    NullIsNoNode(m, t, root);
    var ok, cur, cursor, moved := SkipPrefix(m, root, begin, path, t);
    if !ok {
      return InvalidPath;
    }
    var fault;
    cur, fault := FollowNames(m, root, start, cur, path, cursor, moved, above, t);
    if fault {
      return Fault;
    }
    if cur == NULL {
      return NotFound;
    }
    r := Permitted(m, Found(cur), permanentOnly);
  }

  lemma NullIsNoNode(m: Nodes, t: Tree, root: Addr)
    requires TreeOk(m, t, root)
    ensures NULL !in t.kids
  {
  }

  /** Follows the names of a path after its prefix; a single name may also be looked for above the start. */
  method FollowNames(m: Nodes, root: Addr, start: Addr, from: Addr, path: string, at: nat, moved: bool, above: bool,
      ghost t: Tree)
    returns (node: Addr, fault: bool)
    requires TreeOk(m, t, root) && (start in t.kids || start == NULL) && from in t.kids && at <= |path|
    ensures var names := Segments(path[at..]);
            var d := Descend(m, t, from, names);
            var search := d == NULL && above && !moved && |names| == 1;
            && fault == (search && start !in t.kids)
            && node == if search && start in t.kids then SearchAbove(m, t, root, start, names[0]) else d
  {
    hide TreeOk, SearchAbove, FindNamed;
    var single, cursor := !moved, at;
    node, fault := from, false;
    ghost var names, done := Segments(path[at..]), 0;
    NullIsNoNode(m, t, root);
    while cursor != |path|
      invariant at <= cursor <= |path| && node in t.kids
      invariant done <= |names| && names[done..] == Segments(path[cursor..])
      invariant Descend(m, t, from, names) == Descend(m, t, node, names[done..])
      invariant done != 0 && cursor != |path| ==> !single
      invariant !single ==> moved || |names| > 1
      invariant single ==> !moved
      decreases |path| - cursor
    {
      ghost var here := cursor;
      if path[cursor] == '.' {
        cursor := cursor + 1;
      }
      var name, after := SegmentToName(path, cursor);
      SegmentStep(path, here, cursor, after);
      cursor := after;
      assert names[done..][0] == name && names[done..][1..] == names[done + 1..];
      NoMoreNames(path[cursor..]);
      if cursor != |path| && single {
        single := false;
      }
      FoundInTree(m, t, root, node, name);
      LevelZero(m, t, root, node);
      node := FindSubNode(m, node, name, t, root);
      if node == NULL {
        NowhereFromNull(m, t, names[done + 1..]);
        if !above || !single {
          return;
        }
        assert done == 0 && |names| == 1;
        if start == NULL {
          fault := true;
          return;
        }
        node := SearchAncestors(m, root, start, name, t);
        return;
      }
      done := done + 1;
    }
    NoMoreNames(path[cursor..]);
  }

  lemma NoMoreNames(s: string)
    ensures Segments(s) == [] <==> s == ""
  {
  }

  lemma NowhereFromNull(m: Nodes, t: Tree, names: seq<Name>)
    requires NULL !in t.kids
    ensures Descend(m, t, NULL, names) == NULL
  {
  }

  /** One turn of the loop takes one name off the path. */
  lemma SegmentStep(path: string, here: nat, cursor: nat, after: nat)
    requires here < |path| && cursor == (if path[here] == '.' then here + 1 else here)
    requires after == cursor + SegmentLength(path[cursor..], 4)
    ensures here < after <= |path|
    ensures Segments(path[here..]) == [Pad(path[cursor..after])] + Segments(path[after..])
  {
    hide Segments, Pad, SegmentLength;
    var s := path[here..];
    SegmentsOf(s);
    assert (if s[0] == '.' then s[1..] else s) == path[cursor..];
    assert path[cursor..][..after - cursor] == path[cursor..after];
    assert path[cursor..][after - cursor..] == path[after..];
  }

  lemma SegmentsOf(s: string)
    requires s != ""
    ensures var r := if s[0] == '.' then s[1..] else s;
            var n := SegmentLength(r, 4);
            Segments(s) == [Pad(r[..n])] + Segments(r[n..]) && (s[0] != '.' ==> n > 0)
  {
  }

  // ----- the round trip -----

  /** Names that can be told from the dots between them and the end of the string. */
  predicate Plain(name: Name) {
    forall i | 0 <= i < 4 :: name[i] != '.' && name[i] != '\0'
  }

  ghost predicate UniqueAmongPeers(m: Nodes, s: seq<Addr>) {
    forall i, j | 0 <= i < j < |s| :: s[i] in m && s[j] in m ==> m[s[i]].name != m[s[j]].name
  }

  /** Plain names for every node but the root, no two siblings sharing one. */
  ghost predicate WellNamed(m: Nodes, t: Tree, root: Addr) {
    && (forall c {:trigger m[c]} | c in t.kids && c in m && c != root :: Plain(m[c].name))
    && (forall c {:trigger t.kids[c]} | c in t.kids :: UniqueAmongPeers(m, t.kids[c]))
  }

  /** The names from the root down to a node. */
  ghost function NamesOf(m: Nodes, t: Tree, root: Addr, c: Addr): seq<Name>
    requires TreeOk(m, t, root) && c in t.kids
    decreases t.level[c]
  {
    if t.level[c] == 0 then []
    else
      NamespaceWalk.ParentFacts(m, t, root, c);
      NamesOf(m, t, root, m[c].parent) + [m[c].name]
  }

  /** Names with a dot before each. */
  function Dotted(names: seq<Name>): string {
    if names == [] then "" else "." + names[0] + Dotted(names[1..])
  }

  /** Names with dots between them. */
  function Spelled(names: seq<Name>): string {
    if names == [] then "" else names[0] + Dotted(names[1..])
  }

  lemma {:induction false} DottedAppend(names: seq<Name>, x: Name)
    ensures Dotted(names + [x]) == Dotted(names) + "." + x
  {
    if names == [] {
      assert [x][1..] == [];
      assert names + [x] == [x];
      assert Dotted([]) == "";
    } else {
      DottedAppend(names[1..], x);
      assert (names + [x])[1..] == names[1..] + [x];
      assert (names + [x])[0] == names[0];
      assert "." + names[0] + (Dotted(names[1..]) + "." + x) == "." + names[0] + Dotted(names[1..]) + "." + x;
    }
  }

  lemma SpelledAppend(names: seq<Name>, x: Name)
    ensures Spelled(names + [x]) == Spelled(names) + (if names == [] then "" else ".") + x
  {
    if names == [] {
      assert names + [x] == [x] && [x][1..] == [];
      assert Dotted([]) == "";
    } else {
      DottedAppend(names[1..], x);
      assert (names + [x])[1..] == names[1..] + [x];
    }
  }

  lemma {:induction false} PathIsSpelled(m: Nodes, t: Tree, root: Addr, c: Addr)
    requires TreeOk(m, t, root) && c in t.kids
    ensures PathOf(m, t, root, c) == "\\" + Spelled(NamesOf(m, t, root, c))
    ensures |NamesOf(m, t, root, c)| == t.level[c]
    decreases t.level[c]
  {
    if t.level[c] != 0 {
      NamespaceWalk.ParentFacts(m, t, root, c);
      var p := m[c].parent;
      PathIsSpelled(m, t, root, p);
      SpelledAppend(NamesOf(m, t, root, p), m[c].name);
    }
  }

  ghost predicate AllPlain(names: seq<Name>) {
    forall i | 0 <= i < |names| :: Plain(names[i])
  }

  lemma NamesPlain(m: Nodes, t: Tree, root: Addr, c: Addr)
    requires TreeOk(m, t, root) && c in t.kids && WellNamed(m, t, root)
    ensures AllPlain(NamesOf(m, t, root, c))
    decreases t.level[c]
  {
    LevelZero(m, t, root, c);
    if t.level[c] != 0 {
      NamespaceWalk.ParentFacts(m, t, root, c);
      NamesPlain(m, t, root, m[c].parent);
    }
  }

  lemma FullSegment(x: Name, rest: string)
    requires Plain(x)
    ensures SegmentLength(x + rest, 4) == 4
  {
    var s := x + rest;
    assert s[1..][0] == x[1] && s[2..][0] == x[2] && s[3..][0] == x[3] && s[0] == x[0];
    assert s[1..][1..] == s[2..] && s[2..][1..] == s[3..] && s[3..][1..] == s[4..];
    assert SegmentLength(s[4..], 0) == 0;
    assert SegmentLength(s[3..], 1) == 1;
    assert SegmentLength(s[2..], 2) == 2;
    assert SegmentLength(s[1..], 3) == 3;
  }

  lemma OneSegment(s: string, x: Name, rest: string)
    requires Plain(x) && (s == x + rest || s == "." + x + rest)
    ensures Segments(s) == [x] + Segments(rest)
  {
    FullSegment(x, rest);
    SegmentsOf(s);
    var r := if s[0] == '.' then s[1..] else s;
    assert r == x + rest;
    assert r[..4] == x && r[4..] == rest;
    assert Pad(x) == x;
    hide Segments, SegmentLength, Pad;
  }

  lemma {:induction false} SegmentsOfDotted(names: seq<Name>)
    requires AllPlain(names)
    ensures Segments(Dotted(names)) == names
    decreases |names|
  {
    if names != [] {
      OneSegment(Dotted(names), names[0], Dotted(names[1..]));
      SegmentsOfDotted(names[1..]);
    }
  }

  /** Splitting what was joined gives the names back. */
  lemma SegmentsOfSpelled(names: seq<Name>)
    requires AllPlain(names)
    ensures Segments(Spelled(names)) == names
  {
    if names != [] {
      OneSegment(Spelled(names), names[0], Dotted(names[1..]));
      SegmentsOfDotted(names[1..]);
    }
  }

  lemma {:induction false} DescendAppend(m: Nodes, t: Tree, a: Addr, names: seq<Name>, x: Name)
    requires NULL !in t.kids && Descend(m, t, a, names) in t.kids
    ensures Descend(m, t, a, names + [x]) == FindNamed(m, t.kids[Descend(m, t, a, names)], x)
    decreases |names|
  {
    if names == [] {
      assert names + [x] == [x] && [x][1..] == [];
      assert Descend(m, t, FindNamed(m, t.kids[a], x), []) == FindNamed(m, t.kids[a], x);
    } else {
      assert (names + [x])[1..] == names[1..] + [x];
      NowhereFromNull(m, t, names[1..]);
      DescendAppend(m, t, FindNamed(m, t.kids[a], names[0]), names[1..], x);
    }
  }

  lemma {:induction false} FindUnique(m: Nodes, s: seq<Addr>, i: nat)
    requires i < |s| && UniqueAmongPeers(m, s) && s[i] in m
    ensures FindNamed(m, s, m[s[i]].name) == s[i]
    decreases |s|
  {
    if i != 0 {
      assert s[1..][i - 1] == s[i];
      FindUnique(m, s[1..], i - 1);
    }
  }

  lemma {:induction false} DescendToNode(m: Nodes, t: Tree, root: Addr, c: Addr)
    requires TreeOk(m, t, root) && c in t.kids && WellNamed(m, t, root)
    ensures Descend(m, t, root, NamesOf(m, t, root, c)) == c
    decreases t.level[c]
  {
    LevelZero(m, t, root, c);
    if c != root {
      NamespaceWalk.ParentFacts(m, t, root, c);
      var p := m[c].parent;
      DescendToNode(m, t, root, p);
      DescendAppend(m, t, root, NamesOf(m, t, root, p), m[c].name);
      var i :| 0 <= i < |t.kids[p]| && t.kids[p][i] == c;
      FindUnique(m, t.kids[p], i);
    }
  }

  /** A string as its reader sees it: the characters before the first terminator. */
  function Terminated(s: string): string {
    if s == "" || s[0] == '\0' then "" else [s[0]] + Terminated(s[1..])
  }

  lemma {:induction false} TerminatedWhole(s: string)
    requires forall i | 0 <= i < |s| :: s[i] != '\0'
    ensures Terminated(s + ['\0']) == s
  {
    if s != "" {
      assert (s + ['\0'])[1..] == s[1..] + ['\0'];
      TerminatedWhole(s[1..]);
    } else {
      assert s + ['\0'] == ['\0'];
    }
  }

  lemma {:induction false} DottedIsPlain(names: seq<Name>)
    requires AllPlain(names)
    ensures forall i | 0 <= i < |Dotted(names)| :: Dotted(names)[i] != '\0'
  {
    if names != [] {
      DottedIsPlain(names[1..]);
    }
  }

  /** The printed path of a node, read back up to its terminator, resolves to that node from any start and with
      any way of searching. */
  lemma PathRoundTrip(m: Nodes, t: Tree, root: Addr, start: Addr, c: Addr, above: bool)
    requires TreeOk(m, t, root) && (start in t.kids || start == NULL) && root in t.kids && c in t.kids
    requires WellNamed(m, t, root)
    ensures Lookup(m, t, root, start, Terminated(PathOf(m, t, root, c) + ['\0']), above) == Found(c)
  {
    hide Terminated;
    var path, names := PathOf(m, t, root, c), NamesOf(m, t, root, c);
    PathIsSpelled(m, t, root, c);
    NamesPlain(m, t, root, c);
    SegmentsOfSpelled(names);
    DescendToNode(m, t, root, c);
    NullIsNoNode(m, t, root);
    PathIsPlain(path, names);
    assert path[0] == '\\' && path[1..] == Spelled(names);
  }

  lemma PathIsPlain(path: string, names: seq<Name>)
    requires AllPlain(names) && path == "\\" + Spelled(names)
    ensures Terminated(path + ['\0']) == path
  {
    if names != [] {
      DottedIsPlain(names[1..]);
    }
    TerminatedWhole(path);
  }

  // ----- carets -----

  function Carets(k: nat): string {
    if k == 0 then "" else "^" + Carets(k - 1)
  }

  lemma CaretsStep(k: nat, s: string)
    ensures var path := Carets(k) + s;
      && path[0..] == path && (k == 0 ==> path == s)
      && (k > 0 ==> path[0] == '^' && path[1..] == Carets(k - 1) + s)
  {
  }

  /** The names from below one node down to another. */
  ghost function NamesBelow(m: Nodes, t: Tree, root: Addr, a: Addr, c: Addr): seq<Name>
    requires TreeOk(m, t, root) && a in t.kids && c in t.kids
    decreases t.level[c]
  {
    if t.level[c] <= t.level[a] then []
    else
      NamespaceWalk.ParentFacts(m, t, root, c);
      NamesBelow(m, t, root, a, m[c].parent) + [m[c].name]
  }

  /** Each caret of a prefix leads one level up; with more of them than levels it leads nowhere. */
  lemma {:induction false} PrefixClimbs(m: Nodes, t: Tree, root: Addr, cur: Addr, k: nat, s: string, carets: bool)
    requires TreeOk(m, t, root) && cur in t.kids
    ensures Prefix(m, t, root, cur, Carets(k) + s, carets) ==
      if k <= t.level[cur]
      then Prefix(m, t, root, NamespaceWalk.Ancestor(m, t, root, cur, t.level[cur] - k), s, carets || k > 0)
      else Nowhere
    decreases k
  {
    hide TreeOk, Prefix;
    LevelZero(m, t, root, cur);
    CaretsStep(k, s);
    var path := Carets(k) + s;
    if k == 0 {
      AncestorNear(m, t, root, cur);
    } else {
      PrefixStep(m, t, root, cur, path, 0, carets);
      if cur != root {
        AncestorNear(m, t, root, cur);
        PrefixClimbs(m, t, root, m[cur].parent, k - 1, s, true);
      }
    }
  }

  /** The ancestors of a node other than the root are its parent and that one's. */
  lemma AncestorNear(m: Nodes, t: Tree, root: Addr, cur: Addr)
    requires TreeOk(m, t, root) && cur in t.kids
    ensures cur in t.level && NamespaceWalk.Ancestor(m, t, root, cur, t.level[cur]) == cur
    ensures cur != root ==>
      && cur in m && m[cur].parent in t.kids && t.level[cur] > 0 && t.level[m[cur].parent] == t.level[cur] - 1
      && forall l: nat | l < t.level[cur] ::
           NamespaceWalk.Ancestor(m, t, root, cur, l) == NamespaceWalk.Ancestor(m, t, root, m[cur].parent, l)
  {
    LevelZero(m, t, root, cur);
    if cur != root {
      NamespaceWalk.ParentFacts(m, t, root, cur);
    }
  }

  /** A string that goes on with a name: it does not look like more of a prefix. */
  predicate StartsPlain(s: string) {
    s == "" || (s[0] != '\\' && s[0] != '^')
  }

  lemma {:induction false} DescendBelow(m: Nodes, t: Tree, root: Addr, a: Addr, c: Addr)
    requires TreeOk(m, t, root) && a in t.kids && c in t.kids && WellNamed(m, t, root)
    requires t.level[a] <= t.level[c] && NamespaceWalk.Ancestor(m, t, root, c, t.level[a]) == a
    ensures Descend(m, t, a, NamesBelow(m, t, root, a, c)) == c && AllPlain(NamesBelow(m, t, root, a, c))
    decreases t.level[c]
  {
    if t.level[a] < t.level[c] {
      LevelZero(m, t, root, c);
      NamespaceWalk.ParentFacts(m, t, root, c);
      var p := m[c].parent;
      DescendBelow(m, t, root, a, p);
      NullIsNoNode(m, t, root);
      DescendAppend(m, t, a, NamesBelow(m, t, root, a, p), m[c].name);
      var i :| 0 <= i < |t.kids[p]| && t.kids[p][i] == c;
      FindUnique(m, t.kids[p], i);
    }
  }

  /** From any start, k carets and the names from the k-th ancestor down to any node below it lead to that node. */
  lemma CaretsAndNames(m: Nodes, t: Tree, root: Addr, start: Addr, k: nat, c: Addr, above: bool)
    requires TreeOk(m, t, root) && start in t.kids && root in t.kids && c in t.kids && WellNamed(m, t, root)
    requires k <= t.level[start] && start in t.level
    requires var a := NamespaceWalk.Ancestor(m, t, root, start, t.level[start] - k);
             && t.level[a] <= t.level[c] && NamespaceWalk.Ancestor(m, t, root, c, t.level[a]) == a
             && StartsPlain(Spelled(NamesBelow(m, t, root, a, c)))
    ensures var a := NamespaceWalk.Ancestor(m, t, root, start, t.level[start] - k);
            Lookup(m, t, root, start, Carets(k) + Spelled(NamesBelow(m, t, root, a, c)), above) == Found(c)
  {
    var a := NamespaceWalk.Ancestor(m, t, root, start, t.level[start] - k);
    var names := NamesBelow(m, t, root, a, c);
    DescendBelow(m, t, root, a, c);
    SegmentsOfSpelled(names);
    PrefixClimbs(m, t, root, start, k, Spelled(names), false);
    NullIsNoNode(m, t, root);
    hide TreeOk, NamesBelow, Spelled, Segments, Descend;
  }

  /** c lies below a, by parent links, and these are the names on the way down. */
  ghost predicate IsBelow(m: Nodes, t: Tree, root: Addr, a: Addr, names: seq<Name>, c: Addr)
    requires TreeOk(m, t, root) && a in t.kids
  {
    && c in t.kids && t.level[a] <= t.level[c]
    && NamespaceWalk.Ancestor(m, t, root, c, t.level[a]) == a && NamesBelow(m, t, root, a, c) == names
  }

  lemma {:induction false} OneAbove(m: Nodes, t: Tree, root: Addr, a: Addr, b: Addr, names: seq<Name>, c: Addr)
    requires TreeOk(m, t, root) && a in t.kids && b in t.kids && b != root && b in m && m[b].parent == a
    requires IsBelow(m, t, root, b, names, c)
    ensures IsBelow(m, t, root, a, [m[b].name] + names, c)
    decreases t.level[c]
  {
    LevelZero(m, t, root, b);
    NamespaceWalk.ParentFacts(m, t, root, b);
    if c == b {
      assert NamesBelow(m, t, root, a, a) == [];
    } else {
      LevelZero(m, t, root, c);
      NamespaceWalk.ParentFacts(m, t, root, c);
      var p := m[c].parent;
      OneAbove(m, t, root, a, b, NamesBelow(m, t, root, b, p), p);
    }
  }

  /** Where the names lead is where they are the names on the way down. */
  lemma {:induction false} DescendIsBelow(m: Nodes, t: Tree, root: Addr, a: Addr, names: seq<Name>)
    requires TreeOk(m, t, root) && a in t.kids && WellNamed(m, t, root)
    ensures var c := Descend(m, t, a, names); c != NULL ==> IsBelow(m, t, root, a, names, c)
    decreases |names|
  {
    if names != [] {
      var b := FindNamed(m, t.kids[a], names[0]);
      FindsChild(m, t, root, a, names[0]);
      NullIsNoNode(m, t, root);
      if b != NULL {
        DescendIsBelow(m, t, root, b, names[1..]);
        var c := Descend(m, t, b, names[1..]);
        if c != NULL {
          OneAbove(m, t, root, a, b, names[1..], c);
          assert [names[0]] + names[1..] == names;
        }
      }
    }
  }

  ghost predicate LeadsDown(m: Nodes, t: Tree, root: Addr, a: Addr, names: seq<Name>, r: Result)
    requires TreeOk(m, t, root) && a in t.kids
  {
    && (r.Found? || r.NotFound?)
    && forall c :: r == Found(c) <==> IsBelow(m, t, root, a, names, c)
  }

  lemma DescendExactly(m: Nodes, t: Tree, root: Addr, a: Addr, names: seq<Name>)
    requires TreeOk(m, t, root) && a in t.kids && WellNamed(m, t, root)
    ensures forall c :: c != NULL && Descend(m, t, a, names) == c <==> IsBelow(m, t, root, a, names, c)
    ensures NULL !in t.kids
  {
    NullIsNoNode(m, t, root);
    DescendIsBelow(m, t, root, a, names);
    forall c | IsBelow(m, t, root, a, names, c) ensures Descend(m, t, a, names) == c {
      DescendBelow(m, t, root, a, c);
    }
  }

  lemma FromLeadsDown(m: Nodes, t: Tree, root: Addr, start: Addr, path: string, a: Addr, names: seq<Name>,
      moved: bool, above: bool)
    requires TreeOk(m, t, root) && (start in t.kids || start == NULL) && root in t.kids && a in t.kids
    requires WellNamed(m, t, root) && AllPlain(names) && (moved || |names| != 1)
    requires Prefix(m, t, root, if start == NULL then root else start, path, false) == From(a, Spelled(names), moved)
    ensures LeadsDown(m, t, root, a, names, Lookup(m, t, root, start, path, above))
  {
    hide TreeOk, Prefix, IsBelow, Spelled, Segments, Descend;
    SegmentsOfSpelled(names);
    DescendExactly(m, t, root, a, names);
  }

  /** A path of carets and names, other than a single name, leads to c exactly if c lies that way down from the
      ancestor the carets lead to; otherwise nothing is found, however it is asked to search. */
  lemma QualifiedLeadsDown(m: Nodes, t: Tree, root: Addr, start: Addr, k: nat, names: seq<Name>, above: bool)
    requires TreeOk(m, t, root) && start in t.kids && root in t.kids && start in t.level && WellNamed(m, t, root)
    requires k <= t.level[start] && AllPlain(names) && StartsPlain(Spelled(names)) && (k > 0 || |names| != 1)
    ensures LeadsDown(m, t, root, NamespaceWalk.Ancestor(m, t, root, start, t.level[start] - k), names,
                      Lookup(m, t, root, start, Carets(k) + Spelled(names), above))
  {
    hide TreeOk, LeadsDown, Spelled, Carets, Lookup, NamespaceWalk.Ancestor;
    var a := NamespaceWalk.Ancestor(m, t, root, start, t.level[start] - k);
    PrefixClimbs(m, t, root, start, k, Spelled(names), false);
    NullIsNoNode(m, t, root);
    FromLeadsDown(m, t, root, start, Carets(k) + Spelled(names), a, names, k > 0, above);
  }

  /** A path with a backslash leads down from the root, from any start and without one. */
  lemma AbsoluteLeadsDown(m: Nodes, t: Tree, root: Addr, start: Addr, names: seq<Name>, above: bool)
    requires TreeOk(m, t, root) && (start in t.kids || start == NULL) && root in t.kids && WellNamed(m, t, root)
    requires AllPlain(names)
    ensures LeadsDown(m, t, root, root, names, Lookup(m, t, root, start, "\\" + Spelled(names), above))
  {
    hide TreeOk, LeadsDown, Spelled, Lookup;
    var path := "\\" + Spelled(names);
    assert path[0] == '\\' && path[1..] == Spelled(names);
    FromLeadsDown(m, t, root, start, path, root, names, true, above);
  }

  /** More carets than there are levels, or a backslash behind a caret, make a path invalid. */
  lemma TooManyCarets(m: Nodes, t: Tree, root: Addr, start: Addr, k: nat, s: string, above: bool)
    requires TreeOk(m, t, root) && start in t.kids && root in t.kids && start in t.level
    ensures k > t.level[start] ==> Lookup(m, t, root, start, Carets(k) + s, above) == InvalidPath
    ensures k > 0 && s != "" && s[0] == '\\' ==> Lookup(m, t, root, start, Carets(k) + s, above) == InvalidPath
  {
    PrefixClimbs(m, t, root, start, k, s, false);
    NullIsNoNode(m, t, root);
  }

  // ----- searching above -----

  /** c hangs below a, by its parent link, under this name. */
  ghost predicate IsChildNamed(m: Nodes, t: Tree, root: Addr, a: Addr, name: Name, c: Addr) {
    c in t.kids && c != root && c in m && m[c].parent == a && m[c].name == name
  }

  /** With names unique among siblings, the search below a node finds exactly the child of that name. */
  lemma FindsChild(m: Nodes, t: Tree, root: Addr, a: Addr, name: Name)
    requires TreeOk(m, t, root) && a in t.kids && WellNamed(m, t, root)
    ensures var c := FindNamed(m, t.kids[a], name);
            && (c != NULL ==> IsChildNamed(m, t, root, a, name, c))
            && (forall d | IsChildNamed(m, t, root, a, name, d) :: d == c && d != NULL)
  {
    FindNamedIsChild(m, t.kids[a], name);
    var c := FindNamed(m, t.kids[a], name);
    if c != NULL {
      ChildFacts(m, t, root, a, c);
    }
    forall d | IsChildNamed(m, t, root, a, name, d) ensures d == c && d != NULL {
      LevelZero(m, t, root, d);
      NamespaceWalk.ParentFacts(m, t, root, d);
      NullIsNoNode(m, t, root);
      var i :| 0 <= i < |t.kids[a]| && t.kids[a][i] == d;
      FindUnique(m, t.kids[a], i);
    }
  }

  lemma ChildFacts(m: Nodes, t: Tree, root: Addr, a: Addr, c: Addr)
    requires TreeOk(m, t, root) && a in t.kids && c in t.kids[a]
    ensures c in t.kids && c != root && c in m && m[c].parent == a
  {
    var s := t.kids[a];
    assert Linked(m, a, s) && Below(t, a);
    var i :| 0 <= i < |s| && s[i] == c;
    assert LinkedAt(m, a, s, i);
  }

  /** The nearest node on the way up that has a child of the name is at level l, and that child is c. */
  ghost predicate IsNearest(m: Nodes, t: Tree, root: Addr, start: Addr, name: Name, l: nat, c: Addr)
    requires TreeOk(m, t, root) && start in t.kids && start in t.level && l <= t.level[start]
  {
    && IsChildNamed(m, t, root, NamespaceWalk.Ancestor(m, t, root, start, l), name, c)
    && forall h: nat, d | l < h <= t.level[start] ::
         !IsChildNamed(m, t, root, NamespaceWalk.Ancestor(m, t, root, start, h), name, d)
  }

  lemma {:induction false} SearchIsNearest(m: Nodes, t: Tree, root: Addr, start: Addr, name: Name, l: nat, c: Addr)
    requires TreeOk(m, t, root) && start in t.kids && start in t.level && l < t.level[start] && WellNamed(m, t, root)
    requires IsNearest(m, t, root, start, name, l, c)
    ensures SearchAbove(m, t, root, start, name) == c && c != NULL
    decreases t.level[start]
  {
    LevelZero(m, t, root, start);
    PathStep(m, t, root, start);
    NamespaceWalk.ParentFacts(m, t, root, start);
    var p := m[start].parent;
    FindsChild(m, t, root, p, name);
    var n := t.level[p];
    assert NamespaceWalk.Ancestor(m, t, root, p, n) == p;
    assert forall h: nat | h <= n ::
        NamespaceWalk.Ancestor(m, t, root, start, h) == NamespaceWalk.Ancestor(m, t, root, p, h);
    if l < n {
      SearchIsNearest(m, t, root, p, name, l, c);
    }
  }

  lemma {:induction false} SearchFindsNothing(m: Nodes, t: Tree, root: Addr, start: Addr, name: Name)
    requires TreeOk(m, t, root) && start in t.kids && start in t.level && WellNamed(m, t, root)
    requires forall h: nat, d | h < t.level[start] ::
      !IsChildNamed(m, t, root, NamespaceWalk.Ancestor(m, t, root, start, h), name, d)
    ensures SearchAbove(m, t, root, start, name) == NULL
    decreases t.level[start]
  {
    LevelZero(m, t, root, start);
    if start != root {
      PathStep(m, t, root, start);
      NamespaceWalk.ParentFacts(m, t, root, start);
      var p := m[start].parent;
      FindsChild(m, t, root, p, name);
      var n := t.level[p];
      assert NamespaceWalk.Ancestor(m, t, root, p, n) == p;
      assert forall h: nat | h <= n ::
          NamespaceWalk.Ancestor(m, t, root, start, h) == NamespaceWalk.Ancestor(m, t, root, p, h);
      SearchFindsNothing(m, t, root, p, name);
    }
  }

  /** A path of one segment of up to four characters, and the name it stands for: underscores fill it up. */
  ghost predicate Stands(path: string, name: Name) {
    && 1 <= |path| <= 4 && path[0] != '\\' && path[0] != '^' && (forall i | 0 <= i < |path| :: path[i] != '.')
    && forall i | 0 <= i < 4 :: name[i] == if i < |path| then path[i] else '_'
  }

  lemma OneShortSegment(path: string, name: Name)
    requires Stands(path, name)
    ensures Segments(path) == [name]
  {
    ShortSegment(path, 4);
    SegmentsOf(path);
    assert path[..|path|] == path && path[|path|..] == "";
    assert Pad(path) == name;
    hide SegmentLength, Pad;
  }

  lemma {:induction false} ShortSegment(s: string, limit: nat)
    requires |s| <= limit && forall i | 0 <= i < |s| :: s[i] != '.'
    ensures SegmentLength(s, limit) == |s|
    decreases |s|
  {
    if s != "" {
      ShortSegment(s[1..], limit - 1);
    }
  }

  /** A single name, looked for above: it is the child of that name of the nearest node on the way up that has one,
      the start included, and not found exactly if none has. */
  lemma NearestIsFound(m: Nodes, t: Tree, root: Addr, start: Addr, path: string, name: Name)
    requires TreeOk(m, t, root) && start in t.kids && root in t.kids && start in t.level && WellNamed(m, t, root)
    requires Stands(path, name)
    ensures forall l: nat, c | l <= t.level[start] && IsNearest(m, t, root, start, name, l, c) ::
      Lookup(m, t, root, start, path, true) == Found(c)
    ensures (forall h: nat, d | h <= t.level[start] ::
               !IsChildNamed(m, t, root, NamespaceWalk.Ancestor(m, t, root, start, h), name, d)) ==>
      Lookup(m, t, root, start, path, true) == NotFound
    ensures Lookup(m, t, root, start, path, false) ==
      var c := FindNamed(m, t.kids[start], name); if c != NULL then Found(c) else NotFound
  {
    var n := t.level[start];
    OneShortSegment(path, name);
    FindsChild(m, t, root, start, name);
    NullIsNoNode(m, t, root);
    assert NamespaceWalk.Ancestor(m, t, root, start, n) == start;
    DescendOne(m, t, start, name);
    forall l: nat, c | l <= n && IsNearest(m, t, root, start, name, l, c)
      ensures Lookup(m, t, root, start, path, true) == Found(c)
    {
      if l < n {
        SearchIsNearest(m, t, root, start, name, l, c);
      }
    }
    if forall h: nat, d | h <= n ::
      !IsChildNamed(m, t, root, NamespaceWalk.Ancestor(m, t, root, start, h), name, d) {
      SearchFindsNothing(m, t, root, start, name);
    }
  }

  lemma DescendOne(m: Nodes, t: Tree, a: Addr, name: Name)
    requires a in t.kids && NULL !in t.kids
    ensures Descend(m, t, a, [name]) == FindNamed(m, t.kids[a], name)
  {
    assert [name][1..] == [];
    assert Descend(m, t, FindNamed(m, t.kids[a], name), []) == FindNamed(m, t.kids[a], name);
  }

  /** Without a start a single name is looked for below the root; to search above then is a fault. */
  lemma NoStartFaults(m: Nodes, t: Tree, root: Addr, path: string, name: Name, above: bool)
    requires TreeOk(m, t, root) && root in t.kids && Stands(path, name)
    ensures var c := FindNamed(m, t.kids[root], name);
            Lookup(m, t, root, NULL, path, above) == if c != NULL then Found(c) else if above then Fault else NotFound
  {
    OneShortSegment(path, name);
    NullIsNoNode(m, t, root);
    DescendOne(m, t, root, name);
  }
}
