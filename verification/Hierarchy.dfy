/**
 * The indentation parser of test/testfw/ghw_parse/hierarchy.py. Dictionaries are shared and filled in place there; here
 * the whole hierarchy is one value and every reference the parser holds to a dictionary is a path into it.
 */
module Hierarchy {
  import opened Words

  /** An object made from one line; `text` is the stripped line, `name` the key under which it is stored. */
  datatype Node = Node(text: string, name: string, kids: seq<Node>)

  /** A dictionary in insertion order. */
  type Dict = seq<Node>

  /** Which dictionary: [] is the outermost one, p + [i] the children of entry i of p. */
  type Path = seq<nat>

  datatype Outcome = Parsed(tree: Node) | IndentJump | BadLine | Empty

  // ---------------------------------------------------------------- dictionaries and paths

  predicate Within(root: Dict, p: Path)
    decreases |p|
  {
    p == [] || (p[0] < |root| && Within(root[p[0]].kids, p[1..]))
  }

  function Get(root: Dict, p: Path): Dict
    requires Within(root, p)
    decreases |p|
  {
    if p == [] then root else Get(root[p[0]].kids, p[1..])
  }

  function Update(root: Dict, p: Path, d: Dict): Dict
    requires Within(root, p)
    decreases |p|
  {
    if p == [] then d
    else root[p[0] := root[p[0]].(kids := Update(root[p[0]].kids, p[1..], d))]
  }

  predicate HasName(d: Dict, name: string) {
    exists i :: 0 <= i < |d| && d[i].name == name
  }

  function IndexOf(d: Dict, name: string): (i: nat)
    ensures i <= |d| && (i < |d| ==> d[i].name == name) && forall j :: 0 <= j < i ==> d[j].name != name
    ensures i == |d| <==> !HasName(d, name)
  {
    if d == [] then 0 else if d[0].name == name then 0
    else
      var k := IndexOf(d[1..], name);
      assert HasName(d[1..], name) ==> HasName(d, name);
      assert HasName(d, name) ==> HasName(d[1..], name) by {
        if HasName(d, name) {
          var i :| 0 <= i < |d| && d[i].name == name;
          assert d[1..][i - 1].name == name;
        }
      }
      1 + k
  }

  /** d[name] = obj: a repeated name keeps its position. */
  function Put(d: Dict, obj: Node): Dict {
    var i := IndexOf(d, obj.name);
    if i < |d| then d[i := obj] else d + [obj]
  }

  function Lookup(d: Dict, name: string): Option<Node> {
    var i := IndexOf(d, name);
    if i < |d| then Some(d[i]) else None
  }

  /** Assignment to a dictionary key: that key now gives `obj`, every other one what it gave, and no key moves. */
  lemma PutIsAssignment(d: Dict, obj: Node, name: string)
    ensures Lookup(Put(d, obj), name) == if name == obj.name then Some(obj) else Lookup(d, name)
    ensures |Put(d, obj)| == |d| + if HasName(d, obj.name) then 0 else 1
    ensures forall i :: 0 <= i < |d| ==> Put(d, obj)[i].name == d[i].name
  {
    var e, k := Put(d, obj), IndexOf(d, name);
    FirstIndex(e, name, if name == obj.name then IndexOf(d, name) else if k < |d| then k else |e|);
  }

  lemma FirstIndex(d: Dict, name: string, i: nat)
    requires i <= |d| && (i < |d| ==> d[i].name == name) && forall j :: 0 <= j < i ==> d[j].name != name
    ensures IndexOf(d, name) == i
  {
    var k := IndexOf(d, name);
    if k < i {
      assert false;
    }
  }

  lemma {:induction false} UpdateKeepsPath(root: Dict, p: Path, d: Dict)
    requires Within(root, p)
    ensures Within(Update(root, p, d), p) && Get(Update(root, p, d), p) == d
    decreases |p|
  {
    if p == [] {
    } else {
      UpdateKeepsPath(root[p[0]].kids, p[1..], d);
    }
  }

  lemma {:induction false} PrefixWithin(root: Dict, p: Path, q: Path)
    requires q <= p && Within(root, p)
    ensures Within(root, q)
    decreases |p|
  {
    if q == [] {
    } else {
      PrefixWithin(root[p[0]].kids, p[1..], q[1..]);
    }
  }

  lemma {:induction false} UpdateTwice(root: Dict, p: Path, d: Dict, e: Dict)
    requires Within(root, p)
    ensures Within(Update(root, p, d), p) && Update(Update(root, p, d), p, e) == Update(root, p, e)
    decreases |p|
  {
    if p == [] {
    } else {
      UpdateTwice(root[p[0]].kids, p[1..], d, e);
    }
  }

  lemma {:induction false} UpdateSame(root: Dict, p: Path)
    requires Within(root, p)
    ensures Update(root, p, Get(root, p)) == root
    decreases |p|
  {
    if p == [] {
    } else {
      UpdateSame(root[p[0]].kids, p[1..]);
    }
  }

  /** Changing the children of one entry is changing the dictionary that holds the entry. */
  lemma {:induction false} UpdateChild(root: Dict, p: Path, i: nat, d: Dict)
    requires Within(root, p) && i < |Get(root, p)|
    ensures Within(root, p + [i]) && Get(root, p + [i]) == Get(root, p)[i].kids
    ensures Update(root, p + [i], d) == Update(root, p, Get(root, p)[i := Get(root, p)[i].(kids := d)])
    decreases |p|
  {
    if p == [] {
      assert p + [i] == [i] && [i][1..] == [];
    } else {
      assert (p + [i])[1..] == p[1..] + [i];
      UpdateChild(root[p[0]].kids, p[1..], i, d);
    }
  }

  // ---------------------------------------------------------------- parse

  /** What str.lstrip removes: the characters Python counts as whitespace. */
  predicate IsSpace(ch: char) {
    var n := ch as int;
    0x09 <= n <= 0x0D || 0x1C <= n <= 0x20 || n == 0x85 || n == 0xA0 || n == 0x1680 || 0x2000 <= n <= 0x200A ||
    n == 0x2028 || n == 0x2029 || n == 0x202F || n == 0x205F || n == 0x3000
  }

  /** len(line) - len(line.lstrip()). */
  function Indent(line: string): (n: nat)
    ensures n <= |line|
  {
    if line != [] && IsSpace(line[0]) then 1 + Indent(line[1..]) else 0
  }

  /** The variables of the loop. `stack` and `last` refer to dictionaries by path. */
  datatype State =
    | Running(root: Dict, stack: seq<Path>, last: Path, ws: nat)
    | Stopped(error: Outcome)

  const START: State := Running([], [[]], [], 0)

  /** After each line the stack is one deeper than the indentation and leads down to the object made last. */
  predicate Shaped(s: State) {
    s.Running? ==>
      |s.stack| == s.ws + 1 && Within(s.root, s.last) &&
      (forall k :: 0 <= k < |s.stack| ==> s.stack[k] <= s.last) &&
      (forall j, k :: 0 <= j <= k < |s.stack| ==> s.stack[j] <= s.stack[k])
  }

  /** The stack after pushing or popping for a line indented by `ws`. */
  function StackFor(s: State, ws: nat): (stack: seq<Path>)
    requires s.Running? && |s.stack| == s.ws + 1 && ws <= s.ws + 1
    ensures |stack| == ws + 1
  {
    if ws > s.ws then s.stack + [s.last] else s.stack[..ws + 1]
  }

  lemma TopWithin(s: State, ws: nat)
    requires Shaped(s) && s.Running? && ws <= s.ws + 1
    ensures Within(s.root, StackFor(s, ws)[ws])
  {
    PrefixWithin(s.root, s.last, StackFor(s, ws)[ws]);
  }

  /** stack[-1][obj.name] = obj, with `last` set to the new object's children. */
  function Insert(s: State, ws: nat, obj: Node): State
    requires Shaped(s) && s.Running? && ws <= s.ws + 1
  {
    TopWithin(s, ws);
    var stack := StackFor(s, ws);
    var d := Get(s.root, stack[ws]);
    Running(Update(s.root, stack[ws], Put(d, obj)), stack, stack[ws] + [IndexOf(d, obj.name)], ws)
  }

  /** One turn of the loop; `factory` gives the name of the object a stripped line describes, or nothing. */
  function Line(factory: string -> Option<string>, s: State, line: string): State
    requires Shaped(s)
  {
    var ws := Indent(line);
    var text := line[ws..];
    if s.Stopped? || text == [] then s
    else if ws > s.ws + 1 then Stopped(IndentJump)
    else
      match factory(text)
      case None => Stopped(BadLine)
      case Some(name) => Insert(s, ws, Node(text, name, []))
  }

  lemma InsertShaped(s: State, ws: nat, obj: Node)
    requires Shaped(s) && s.Running? && ws <= s.ws + 1
    ensures Shaped(Insert(s, ws, obj))
  {
    TopWithin(s, ws);
    var p := StackFor(s, ws)[ws];
    var d := Get(s.root, p);
    UpdateKeepsPath(s.root, p, Put(d, obj));
    UpdateChild(Update(s.root, p, Put(d, obj)), p, IndexOf(d, obj.name), []);
  }

  lemma LineShaped(factory: string -> Option<string>, s: State, line: string)
    requires Shaped(s)
    ensures Shaped(Line(factory, s, line))
  {
    var ws := Indent(line);
    var text := line[ws..];
    if s.Running? && text != [] && ws <= s.ws + 1 && factory(text).Some? {
      InsertShaped(s, ws, Node(text, factory(text).value, []));
    }
  }

  function Lines(factory: string -> Option<string>, s: State, lines: seq<string>): (t: State)
    requires Shaped(s)
    ensures Shaped(t)
    decreases |lines|
  {
    if lines == [] then s
    else
      LineShaped(factory, s, lines[0]);
      Lines(factory, Line(factory, s, lines[0]), lines[1..])
  }

  function Result(s: State): Outcome {
    match s
    case Stopped(e) => e
    case Running(root, _, _, _) => if root == [] then Empty else Parsed(root[0])
  }

  /** parse, after splitlines; the first entry of the outermost dictionary is the result. */
  method Parse(factory: string -> Option<string>, lines: seq<string>) returns (r: Outcome)
    ensures r == Result(Lines(factory, START, lines))
  {
    assert Shaped(START);
    hide Indent;
    hide IndexOf;
    hide Put;
    hide Get;
    hide Update;
    hide Within;
    var root: Dict, last: Path, currWs: nat := [], [], 0;
    var stack: seq<Path> := [last];
    var i := 0;
    while i < |lines|
      invariant 0 <= i <= |lines| && Shaped(Running(root, stack, last, currWs))
      invariant Lines(factory, Running(root, stack, last, currWs), lines[i..]) == Lines(factory, START, lines)
    {
      ghost var s := Running(root, stack, last, currWs);
      var line := lines[i];
      LineShaped(factory, s, line);
      assert lines[i..][0] == line && lines[i..][1..] == lines[i + 1..];
      i := i + 1;
      var ws := Indent(line);
      var text := line[ws..];
      if text == [] {
        continue;
      }
      if ws > currWs {
        if currWs + 1 != ws {
          StoppedStays(factory, IndentJump, lines[i..]);
          return IndentJump;
        }
        stack := stack + [last];
      } else {
        var k := 0;
        while k < currWs - ws
          invariant 0 <= k <= currWs - ws && stack == s.stack[..currWs + 1 - k]
        {
          stack := stack[..|stack| - 1];
          k := k + 1;
        }
      }
      assert stack == StackFor(s, ws);
      var name := factory(text);
      if name == None {
        StoppedStays(factory, BadLine, lines[i..]);
        return BadLine;
      }
      TopWithin(s, ws);
      var d := Get(root, stack[|stack| - 1]);
      var obj := Node(text, name.value, []);
      last := stack[|stack| - 1] + [IndexOf(d, obj.name)];
      root := Update(root, stack[|stack| - 1], Put(d, obj));
      currWs := ws;
    }
    assert lines[i..] == [];
    r := if root == [] then Empty else Parsed(root[0]);
  }

  lemma {:induction false} StoppedStays(factory: string -> Option<string>, e: Outcome, lines: seq<string>)
    ensures Lines(factory, Stopped(e), lines) == Stopped(e)
    decreases |lines|
  {
    if lines == [] {
    } else {
      StoppedStays(factory, e, lines[1..]);
    }
  }

  // ---------------------------------------------------------------- printing and reading back

  function Spaces(n: nat): string {
    if n == 0 then [] else [' '] + Spaces(n - 1)
  }

  /** One line per object, one space per level. */
  function Print(forest: seq<Node>, depth: nat): seq<string> {
    if forest == [] then []
    else [Spaces(depth) + forest[0].text] + Print(forest[0].kids, depth + 1) + Print(forest[1..], depth)
  }

  /** Every object is one the factory makes from its own line, and siblings have different names. */
  predicate Printable(factory: string -> Option<string>, forest: seq<Node>) {
    forest == [] ||
    (forest[0].text != [] && !IsSpace(forest[0].text[0]) && factory(forest[0].text) == Some(forest[0].name) &&
     !HasName(forest[1..], forest[0].name) &&
     Printable(factory, forest[0].kids) && Printable(factory, forest[1..]))
  }

  lemma IndentSpace(rest: string)
    ensures Indent([' '] + rest) == 1 + Indent(rest)
  {
    assert ([' '] + rest)[1..] == rest;
  }

  lemma {:induction false} IndentOf(depth: nat, text: string)
    requires text != [] && !IsSpace(text[0])
    ensures Indent(Spaces(depth) + text) == depth && (Spaces(depth) + text)[depth..] == text
  {
    if depth == 0 {
      assert Spaces(0) + text == text;
    } else {
      hide IsSpace;
      IndentOf(depth - 1, text);
      var rest := Spaces(depth - 1) + text;
      assert Spaces(depth) + text == [' '] + rest;
      IndentSpace(rest);
      hide Indent;
      hide Spaces;
      assert ([' '] + rest)[depth..] == rest[depth - 1..];
    }
  }

  lemma {:induction false} LinesAppend(factory: string -> Option<string>, s: State, a: seq<string>, b: seq<string>)
    requires Shaped(s)
    ensures Lines(factory, s, a + b) == Lines(factory, Lines(factory, s, a), b)
    decreases |a|
  {
    if a == [] {
      assert a + b == b;
    } else {
      LineShaped(factory, s, a[0]);
      LinesAppend(factory, Line(factory, s, a[0]), a[1..], b);
      assert (a + b)[1..] == a[1..] + b;
    }
  }

  /** The next line may be indented by `depth`, and would then go into the dictionary `p`. */
  predicate Accepts(s: State, depth: nat, p: Path) {
    Shaped(s) && s.Running? && depth <= s.ws + 1 && StackFor(s, depth)[depth] == p
  }

  /** What reading a printed forest does: it appends the forest to the dictionary it is printed into. */
  predicate Grown(s: State, depth: nat, p: Path, d: Dict, t: State)
    requires Accepts(s, depth, p) && Within(s.root, p)
  {
    Accepts(t, depth, p) && t.root == Update(s.root, p, d) &&
    StackFor(t, depth)[..depth] == StackFor(s, depth)[..depth]
  }

  /** The line of an object with a new name appends it, childless, to the dictionary at its depth. */
  lemma ObjectLine(factory: string -> Option<string>, s: State, depth: nat, p: Path, n: Node)
    requires Accepts(s, depth, p) && Within(s.root, p) && !HasName(Get(s.root, p), n.name)
    requires n.text != [] && !IsSpace(n.text[0]) && factory(n.text) == Some(n.name)
    ensures var t := Line(factory, s, Spaces(depth) + n.text);
      var d := Get(s.root, p);
      Grown(s, depth, p, d + [n.(kids := [])], t) && t.ws == depth && t.last == p + [|d|]
  {
    IndentOf(depth, n.text);
    var obj := n.(kids := []);
    assert Line(factory, s, Spaces(depth) + n.text) == Insert(s, depth, obj);
    InsertShaped(s, depth, obj);
  }

  predicate NewNames(d: Dict, forest: seq<Node>) {
    forall i :: 0 <= i < |forest| ==> !HasName(d, forest[i].name)
  }

  lemma HasNameAppend(d: Dict, n: Node, name: string)
    ensures HasName(d + [n], name) <==> HasName(d, name) || n.name == name
  {
    assert (d + [n])[|d|] == n;
    forall i | 0 <= i < |d|
      ensures (d + [n])[i] == d[i]
    {
    }
  }

  lemma NewNamesNext(d: Dict, forest: seq<Node>)
    requires forest != [] && NewNames(d, forest) && !HasName(forest[1..], forest[0].name)
    ensures NewNames(d + [forest[0]], forest[1..])
  {
    forall i | 0 <= i < |forest| - 1
      ensures !HasName(d + [forest[0]], forest[1..][i].name)
    {
      assert forest[1..][i] == forest[i + 1];
      HasNameAppend(d, forest[0], forest[i + 1].name);
    }
  }

  /** Below an object just read, its children go into its own dictionary; back at its depth the stack is as it was. */
  lemma BackAtDepth(s: State, depth: nat)
    requires Shaped(s) && s.Running? && depth <= s.ws
    ensures StackFor(s, depth) == StackFor(s, depth + 1)[..depth + 1]
  {
  }

  /** Filling in the children of the entry appended last. */
  lemma FillLast(root: Dict, p: Path, d: Dict, n: Node)
    requires Within(root, p) && d == Get(root, p)
    ensures var r := Update(root, p, d + [n.(kids := [])]);
      Within(r, p) && Get(r, p) == d + [n.(kids := [])] && Within(r, p + [|d|]) && Get(r, p + [|d|]) == [] &&
      Update(r, p + [|d|], n.kids) == Update(root, p, d + [n])
  {
    var e := d + [n.(kids := [])];
    var r := Update(root, p, e);
    UpdateKeepsPath(root, p, e);
    UpdateChild(r, p, |d|, n.kids);
    assert e[|d| := e[|d|].(kids := n.kids)] == d + [n];
    UpdateTwice(root, p, e, d + [n]);
  }

  /** Reading one printed object with its whole subtree appends that subtree. */
  lemma {:induction false} SubtreeRead(factory: string -> Option<string>, s: State, depth: nat, p: Path, n: Node)
    requires Accepts(s, depth, p) && Within(s.root, p) && !HasName(Get(s.root, p), n.name)
    requires n.text != [] && !IsSpace(n.text[0]) && factory(n.text) == Some(n.name) && Printable(factory, n.kids)
    ensures var t := Lines(factory, s, [Spaces(depth) + n.text] + Print(n.kids, depth + 1));
      Grown(s, depth, p, Get(s.root, p) + [n], t) && depth <= t.ws
    decreases n, 0
  {
    var d := Get(s.root, p);
    var line := Spaces(depth) + n.text;
    ObjectLine(factory, s, depth, p, n);
    LineShaped(factory, s, line);
    var s1 := Line(factory, s, line);
    FillLast(s.root, p, d, n);
    var q := p + [|d|];
    ForestRead(factory, s1, depth + 1, q, n.kids);
    var s2 := Lines(factory, s1, Print(n.kids, depth + 1));
    assert [] + n.kids == n.kids;
    BackAtDepth(s2, depth);
    BackAtDepth(s1, depth);
    assert ([line] + Print(n.kids, depth + 1))[1..] == Print(n.kids, depth + 1);
  }

  /** Reading a printed forest appends the forest to the dictionary it belongs to, whatever was read before. */
  lemma {:induction false} ForestRead(factory: string -> Option<string>, s: State, depth: nat, p: Path, forest: seq<Node>)
    requires Accepts(s, depth, p) && Within(s.root, p)
    requires Printable(factory, forest) && NewNames(Get(s.root, p), forest)
    ensures Grown(s, depth, p, Get(s.root, p) + forest, Lines(factory, s, Print(forest, depth)))
    decreases forest, 1
  {
    hide Line;
    hide Update;
    hide Spaces;
    hide HasName;
    hide StackFor;
    hide Shaped;
    var d := Get(s.root, p);
    if forest == [] {
      assert d + forest == d;
      UpdateSame(s.root, p);
    } else {
      var n, rest := forest[0], forest[1..];
      SubtreeRead(factory, s, depth, p, n);
      var first := [Spaces(depth) + n.text] + Print(n.kids, depth + 1);
      var s2 := Lines(factory, s, first);
      UpdateKeepsPath(s.root, p, d + [n]);
      NewNamesNext(d, forest);
      ForestRead(factory, s2, depth, p, rest);
      LinesAppend(factory, s, first, Print(rest, depth));
      UpdateTwice(s.root, p, d + [n], d + [n] + rest);
      assert d + [n] + rest == d + forest;
    }
  }

  /** Printing any forest and parsing the lines rebuilds the forest, and the answer is its first tree. */
  lemma PrintParse(factory: string -> Option<string>, forest: seq<Node>)
    requires Printable(factory, forest)
    ensures var s := Lines(factory, START, Print(forest, 0));
      s.Running? && s.root == forest && Result(s) == if forest == [] then Empty else Parsed(forest[0])
  {
    ForestRead(factory, START, 0, [], forest);
    assert Get([], []) + forest == forest;
  }

  // ---------------------------------------------------------------- every input

  predicate Blank(line: string) {
    forall i :: 0 <= i < |line| ==> IsSpace(line[i])
  }

  lemma {:induction false} IndentStops(line: string)
    ensures Indent(line) < |line| ==> !IsSpace(line[Indent(line)])
    ensures Indent(line) == |line| <==> Blank(line)
  {
    hide IsSpace;
    if line == [] || !IsSpace(line[0]) {
    } else {
      IndentStops(line[1..]);
      assert line == [line[0]] + line[1..];
    }
  }

  function WithoutBlanks(lines: seq<string>): seq<string> {
    if lines == [] then []
    else (if Blank(lines[0]) then [] else [lines[0]]) + WithoutBlanks(lines[1..])
  }

  lemma BlankLine(factory: string -> Option<string>, s: State, line: string)
    requires Shaped(s) && Blank(line)
    ensures Line(factory, s, line) == s
  {
    IndentStops(line);
  }

  /** Blank lines anywhere in the input change nothing. */
  lemma {:induction false} BlanksIgnored(factory: string -> Option<string>, s: State, lines: seq<string>)
    requires Shaped(s)
    ensures Lines(factory, s, lines) == Lines(factory, s, WithoutBlanks(lines))
    decreases |lines|
  {
    hide Blank;
    hide Shaped;
    if lines == [] {
    } else {
      var t := Line(factory, s, lines[0]);
      LineShaped(factory, s, lines[0]);
      BlanksIgnored(factory, t, lines[1..]);
      if Blank(lines[0]) {
        BlankLine(factory, s, lines[0]);
        assert WithoutBlanks(lines) == WithoutBlanks(lines[1..]);
      } else {
        assert WithoutBlanks(lines)[0] == lines[0] && WithoutBlanks(lines)[1..] == WithoutBlanks(lines[1..]);
      }
      hide Line;
    }
  }

  /** The first bad line decides the outcome: too deep an indentation before anything the line says. */
  lemma StopsAtFirstBadLine(factory: string -> Option<string>, before: seq<string>, line: string, after: seq<string>)
    requires Lines(factory, START, before).Running? && !Blank(line)
    ensures var s := Lines(factory, START, before);
      var deep := Indent(line) > s.ws + 1;
      deep || factory(line[Indent(line)..]) == None ==>
        Result(Lines(factory, START, before + [line] + after)) == if deep then IndentJump else BadLine
  {
    var s := Lines(factory, START, before);
    IndentStops(line);
    LinesAppend(factory, START, before + [line], after);
    LinesAppend(factory, START, before, [line]);
    LastLine(factory, s, line);
    StoppedStays(factory, IndentJump, after);
    StoppedStays(factory, BadLine, after);
    hide Insert;
    hide Indent;
  }

  /** Made by the factory from its own line. */
  predicate Made(factory: string -> Option<string>, n: Node) {
    n.text != [] && !IsSpace(n.text[0]) && factory(n.text) == Some(n.name)
  }

  /** Every object is made from its line and no dictionary has a key twice. */
  predicate WellNamed(factory: string -> Option<string>, d: Dict) {
    (forall i, j :: 0 <= i < j < |d| ==> d[i].name != d[j].name) &&
    forall i :: 0 <= i < |d| ==> Made(factory, d[i]) && WellNamed(factory, d[i].kids)
  }

  lemma {:induction false} WellNamedPrintable(factory: string -> Option<string>, d: Dict)
    requires WellNamed(factory, d)
    ensures Printable(factory, d)
  {
    if d == [] {
    } else {
      assert Made(factory, d[0]);
      WellNamedPrintable(factory, d[0].kids);
      assert forall i :: 0 <= i < |d| - 1 ==> d[1..][i] == d[i + 1];
      WellNamedPrintable(factory, d[1..]);
    }
  }

  lemma {:induction false} GetWellNamed(factory: string -> Option<string>, root: Dict, p: Path)
    requires WellNamed(factory, root) && Within(root, p)
    ensures WellNamed(factory, Get(root, p))
    decreases |p|
  {
    if p == [] {
    } else {
      GetWellNamed(factory, root[p[0]].kids, p[1..]);
    }
  }

  lemma {:induction false} UpdateWellNamed(factory: string -> Option<string>, root: Dict, p: Path, d: Dict)
    requires WellNamed(factory, root) && Within(root, p) && WellNamed(factory, d)
    ensures WellNamed(factory, Update(root, p, d))
    decreases |p|
  {
    if p == [] {
    } else {
      UpdateWellNamed(factory, root[p[0]].kids, p[1..], d);
      var r := Update(root, p, d);
      assert forall i :: 0 <= i < |r| ==> r[i].name == root[i].name && r[i].text == root[i].text;
    }
  }

  lemma PutWellNamed(factory: string -> Option<string>, d: Dict, obj: Node)
    requires WellNamed(factory, d) && Made(factory, obj) && obj.kids == []
    ensures WellNamed(factory, Put(d, obj))
  {
    PutIsAssignment(d, obj, obj.name);
    assert !HasName(d, obj.name) ==> forall i :: 0 <= i < |d| ==> d[i].name != obj.name;
  }

  lemma InsertWellNamed(factory: string -> Option<string>, s: State, ws: nat, obj: Node)
    requires Shaped(s) && s.Running? && ws <= s.ws + 1 && WellNamed(factory, s.root)
    requires Made(factory, obj) && obj.kids == []
    ensures WellNamed(factory, Insert(s, ws, obj).root)
  {
    hide WellNamed;
    hide Made;
    TopWithin(s, ws);
    var p := StackFor(s, ws)[ws];
    GetWellNamed(factory, s.root, p);
    PutWellNamed(factory, Get(s.root, p), obj);
    UpdateWellNamed(factory, s.root, p, Put(Get(s.root, p), obj));
  }

  lemma LineWellNamed(factory: string -> Option<string>, s: State, line: string)
    requires Shaped(s) && (s.Running? ==> WellNamed(factory, s.root))
    ensures var t := Line(factory, s, line); t.Running? ==> WellNamed(factory, t.root)
  {
    var ws := Indent(line);
    var text := line[ws..];
    IndentStops(line);
    if s.Running? && text != [] && ws <= s.ws + 1 && factory(text).Some? {
      InsertWellNamed(factory, s, ws, Node(text, factory(text).value, []));
    }
    hide WellNamed;
    hide Indent;
    hide Insert;
  }

  lemma {:induction false} LinesWellNamed(factory: string -> Option<string>, s: State, lines: seq<string>)
    requires Shaped(s) && (s.Running? ==> WellNamed(factory, s.root))
    ensures var t := Lines(factory, s, lines); t.Running? ==> WellNamed(factory, t.root)
    decreases |lines|
  {
    if lines == [] {
    } else {
      LineShaped(factory, s, lines[0]);
      LineWellNamed(factory, s, lines[0]);
      hide Line;
      hide WellNamed;
      hide Shaped;
      LinesWellNamed(factory, Line(factory, s, lines[0]), lines[1..]);
    }
  }

  /**
   * For every input the parser accepts, however irregular: no dictionary has a key twice, and printing the hierarchy
   * and parsing it again gives the same hierarchy.
   */
  lemma ParsePrintParse(factory: string -> Option<string>, lines: seq<string>)
    requires Lines(factory, START, lines).Running?
    ensures var root := Lines(factory, START, lines).root;
      WellNamed(factory, root) &&
      var again := Lines(factory, START, Print(root, 0));
      again.Running? && again.root == root && Result(again) == Result(Lines(factory, START, lines))
  {
    LinesWellNamed(factory, START, lines);
    var root := Lines(factory, START, lines).root;
    WellNamedPrintable(factory, root);
    PrintParse(factory, root);
  }

  /**
   * For every input: right after a line that is not blank the stack is exactly one deeper than that line's indentation,
   * its top is the dictionary that now holds the object the line describes, and what is more indented goes below it.
   */
  lemma StackDepth(factory: string -> Option<string>, before: seq<string>, line: string)
    requires line[Indent(line)..] != []
    ensures var s := Lines(factory, START, before + [line]);
      s.Running? ==>
        |s.stack| == Indent(line) + 1 && Within(s.root, s.stack[Indent(line)]) &&
        (exists i :: 0 <= i < |Get(s.root, s.stack[Indent(line)])| && s.last == s.stack[Indent(line)] + [i] &&
          Get(s.root, s.stack[Indent(line)])[i].text == line[Indent(line)..] &&
          Get(s.root, s.stack[Indent(line)])[i].kids == [])
  {
    var s := Lines(factory, START, before);
    var ws, text := Indent(line), line[Indent(line)..];
    LinesAppend(factory, START, before, [line]);
    LastLine(factory, s, line);
    if s.Running? && ws <= s.ws + 1 && factory(text).Some? {
      InsertedOnTop(s, ws, Node(text, factory(text).value, []));
    }
    hide Insert;
    hide Indent;
    hide Get;
    hide Within;
  }

  lemma LastLine(factory: string -> Option<string>, s: State, line: string)
    requires Shaped(s)
    ensures Lines(factory, s, [line]) == Line(factory, s, line)
  {
    hide Line;
    hide Shaped;
    LineShaped(factory, s, line);
    assert [line][1..] == [];
  }

  /** The object of a line is in the dictionary on top of the stack. */
  lemma InsertedOnTop(s: State, ws: nat, obj: Node)
    requires Shaped(s) && s.Running? && ws <= s.ws + 1
    ensures var t := Insert(s, ws, obj);
      t.Running? && |t.stack| == ws + 1 && Within(t.root, t.stack[ws]) &&
      exists i :: 0 <= i < |Get(t.root, t.stack[ws])| && t.last == t.stack[ws] + [i] &&
        Get(t.root, t.stack[ws])[i].text == obj.text && Get(t.root, t.stack[ws])[i].kids == obj.kids
  {
    TopWithin(s, ws);
    var p := StackFor(s, ws)[ws];
    var d := Get(s.root, p);
    UpdateKeepsPath(s.root, p, Put(d, obj));
    assert Put(d, obj)[IndexOf(d, obj.name)] == obj;
  }
}
