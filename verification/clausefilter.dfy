/** Compiling a boolean s-expression to binary clauses, and evaluating those. */
module ClauseFilters {
  import opened Bytes

  /** A node of an s-expression: a list has children, an atom a value; next is its right sibling. */
  datatype Node = Nil | Node(value: string, children: Node, next: Node)

  function Size(n: Node): nat {
    match n
    case Nil => 0
    case Node(_, c, x) => 1 + Size(c) + Size(x)
  }

  /** Number of a node and its right siblings. */
  function Count(n: Node): nat {
    match n
    case Nil => 0
    case Node(_, _, x) => 1 + Count(x)
  }

  function Nth(n: Node, k: nat): (r: Node)
    requires k < Count(n)
    ensures r.Node? && Count(r) == Count(n) - k && Size(r) <= Size(n) - k
    ensures k > 0 ==> r == Nth(n.next, k - 1)
  {
    if k == 0 then n else Nth(n.next, k - 1)
  }

  datatype Clause =
    | Not(arg: Clause) | And(left: Clause, right: Clause) | Or(left: Clause, right: Clause)
    | Atom(field: nat, contents: string) | True | False

  type Fields = map<string, nat>

  /** Both operands of a binary clause, if they can be interpreted. */
  function Binary(op: string, l: Option<Clause>, r: Option<Clause>): Option<Clause> {
    if l.None? || r.None? then None
    else if op == "and" then Some(And(l.value, r.value))
    else Some(Or(l.value, r.value))
  }

  /** The list with the same operator and without the first operand. */
  function Remainder(args: Node): (r: Node)
    requires Count(args) > 2
    ensures r.Node? && Size(r.children) < Size(args) && Count(r.children) == Count(args) - 1
  {
    var rest := Node(args.value, Nil, Nth(args, 2));
    assert Size(rest) == 1 + Size(Nth(args, 2)) && Count(rest) == 1 + Count(Nth(args, 2));
    Node("", rest, Nil)
  }

  /** More than two operands are nested to the right, by way of a new list without the first one. */
  function Parse(node: Node, fields: Fields): Option<Clause>
    requires node.Node?
    decreases Size(node.children)
  {
    var args := node.children;
    var n := Count(args);
    if args.Node? && args.value in {"and", "or"} then
      if n == 1 then Some(if args.value == "or" then True else False)
      else if n == 2 then Parse(Nth(args, 1), fields)
      else if n == 3 then Binary(args.value, Parse(Nth(args, 1), fields), Parse(Nth(args, 2), fields))
      else
        var rest := Remainder(args);
        Binary(args.value, Parse(Nth(args, 1), fields), Parse(rest, fields))
    else if n == 2 && args.value == "not" then
      var arg := Parse(Nth(args, 1), fields);
      if arg.None? then None else Some(Not(arg.value))
    else if n == 2 && args.value in fields then
      Some(Atom(fields[args.value], Nth(args, 1).value))
    else None
  }

  predicate Match(get: nat -> string, c: Clause) {
    match c
    case Not(a) => !Match(get, a)
    case And(l, r) => if !Match(get, l) then false else Match(get, r)
    case Or(l, r) => if Match(get, l) then true else Match(get, r)
    case Atom(f, v) => get(f) == v
    case True => true
    case False => false
  }

  predicate Cut(c: char) { c in " \r\n\t" }

  function TrimLeft(s: string): string {
    if s != [] && Cut(s[0]) then TrimLeft(s[1..]) else s
  }

  function TrimRight(s: string): string {
    if s != [] && Cut(s[|s| - 1]) then TrimRight(s[..|s| - 1]) else s
  }

  /** An empty clause lets everything through; top is what the text is parsed to otherwise. */
  function ParseClause(raw: string, top: Node, fields: Fields): Option<Clause>
    requires !Empty(raw) ==> top.Node? && top.children.Node?
  {
    TrimmedEmpty(raw);
    if TrimLeft(TrimRight(raw)) == [] then Some(True) else Parse(top.children, fields)
  }

  /** Nothing but spaces, tabs and line ends. */
  predicate Empty(raw: string) {
    forall i | 0 <= i < |raw| :: raw[i] == ' ' || raw[i] == '\r' || raw[i] == '\n' || raw[i] == '\t'
  }

  lemma {:induction false} TrimLeftEmpty(s: string)
    ensures TrimLeft(s) == [] <==> Empty(s)
  {
    if s != [] && Cut(s[0]) {
      TrimLeftEmpty(s[1..]);
      assert s == [s[0]] + s[1..];
    }
  }

  lemma {:induction false} TrimRightEmpty(s: string)
    ensures Empty(TrimRight(s)) <==> Empty(s)
  {
    if s != [] && Cut(s[|s| - 1]) {
      TrimRightEmpty(s[..|s| - 1]);
      assert s == s[..|s| - 1] + [s[|s| - 1]];
    }
  }

  lemma TrimmedEmpty(raw: string)
    ensures TrimLeft(TrimRight(raw)) == [] <==> Empty(raw)
  {
    TrimRightEmpty(raw);
    TrimLeftEmpty(TrimRight(raw));
  }

  // ---------------------------------------------------------------- what an s-expression means

  predicate IsConnective(node: Node)
    requires node.Node?
  {
    node.children.Node? && node.children.value in {"and", "or"}
  }

  predicate IsPair(args: Node) {
    args.Node? && args.next.Node? && args.next.next.Nil?
  }

  predicate WellFormed(node: Node, fields: Fields)
    requires node.Node?
    decreases Size(node.children)
  {
    var args := node.children;
    assert args.Node? ==> Size(args.next) < Size(args);
    if IsConnective(node) then AllWellFormed(args.next, fields)
    else IsPair(args) &&
         if args.value == "not" then WellFormed(args.next, fields) else args.value in fields
  }

  predicate AllWellFormed(args: Node, fields: Fields)
    decreases Size(args)
  {
    args.Node? ==> WellFormed(args, fields) && AllWellFormed(args.next, fields)
  }

  /** Conjunctions and disjunctions of any number of operands. */
  predicate Holds(get: nat -> string, node: Node, fields: Fields)
    requires node.Node? && WellFormed(node, fields)
    decreases Size(node.children)
  {
    var args := node.children;
    assert args.Node? ==> Size(args.next) < Size(args);
    if IsConnective(node) then
      if args.value == "and" then args.next.Node? && AllHold(get, args.next, fields)
      else args.next.Node? ==> SomeHolds(get, args.next, fields)
    else if args.value == "not" then !Holds(get, args.next, fields)
    else get(fields[args.value]) == args.next.value
  }

  predicate AllHold(get: nat -> string, args: Node, fields: Fields)
    requires AllWellFormed(args, fields)
    decreases Size(args)
  {
    args.Node? ==> Holds(get, args, fields) && AllHold(get, args.next, fields)
  }

  predicate SomeHolds(get: nat -> string, args: Node, fields: Fields)
    requires AllWellFormed(args, fields)
    decreases Size(args)
  {
    args.Node? && (Holds(get, args, fields) || SomeHolds(get, args.next, fields))
  }

  lemma CountIs(args: Node)
    ensures Count(args) == 0 <==> args.Nil?
    ensures Count(args) == 1 <==> args.Node? && args.next.Nil?
    ensures Count(args) == 2 <==> IsPair(args)
    ensures Count(args) == 3 <==> args.Node? && IsPair(args.next)
    ensures Count(args) > 1 ==> Nth(args, 1) == args.next
    ensures Count(args) > 2 ==> Nth(args, 2) == args.next.next
  {
    if args.Node? && args.next.Node? && args.next.next.Node? {
      assert Count(args) == 3 + Count(args.next.next.next);
    }
  }

  lemma Single(get: nat -> string, arg: Node, fields: Fields)
    requires arg.Node? && arg.next.Nil?
    ensures AllWellFormed(arg, fields) <==> WellFormed(arg, fields)
    ensures WellFormed(arg, fields) ==> (AllHold(get, arg, fields) <==> Holds(get, arg, fields))
    ensures WellFormed(arg, fields) ==> (SomeHolds(get, arg, fields) <==> Holds(get, arg, fields))
  {
    assert AllWellFormed(arg.next, fields);
  }

  /**
   * Exactly the well-formed s-expressions compile, and the clause means what the s-expression says,
   * for every record.
   */
  lemma {:induction false} ParseCorrect(get: nat -> string, node: Node, fields: Fields)
    requires node.Node?
    ensures Parse(node, fields).Some? <==> WellFormed(node, fields)
    ensures WellFormed(node, fields) ==> Match(get, Parse(node, fields).value) == Holds(get, node, fields)
    decreases Size(node.children)
  {
    var args := node.children;
    var n := Count(args);
    CountIs(args);
    if IsConnective(node) {
      if n > 1 {
        ParseCorrect(get, args.next, fields);
        if n == 2 {
          Single(get, args.next, fields);
        } else if n == 3 {
          Single(get, args.next.next, fields);
          ParseCorrect(get, args.next.next, fields);
        } else {
          var rest := Remainder(args);
          ParseCorrect(get, rest, fields);
          assert rest.children.next == args.next.next;
        }
      }
    } else if n == 2 && args.value == "not" {
      ParseCorrect(get, args.next, fields);
    }
  }

  /**
   * An empty clause lets every record through; any other is compiled from the first s-expression of
   * the text, exactly when that is well-formed, and means what it says.
   */
  lemma ParseClauseCorrect(get: nat -> string, raw: string, top: Node, fields: Fields)
    requires !Empty(raw) ==> top.Node? && top.children.Node?
    ensures var c := ParseClause(raw, top, fields);
            && (c.Some? <==> Empty(raw) || WellFormed(top.children, fields))
            && (c.Some? ==> (Match(get, c.value) <==> Empty(raw) || Holds(get, top.children, fields)))
  {
    TrimmedEmpty(raw);
    if !Empty(raw) {
      ParseCorrect(get, top.children, fields);
    }
  }

  /**
   * With one operand a connective is that operand. So `(and X)` lets a record through exactly when X
   * does, and not always.
   */
  lemma OneOperand(get: nat -> string, node: Node, fields: Fields)
    requires node.Node? && IsConnective(node) && IsPair(node.children) && WellFormed(node, fields)
    ensures Parse(node, fields).Some? && Parse(node.children.next, fields).Some?
    ensures Match(get, Parse(node, fields).value) <==> Match(get, Parse(node.children.next, fields).value)
  {
    var arg := node.children.next;
    Single(get, arg, fields);
    ParseCorrect(get, node, fields);
    ParseCorrect(get, arg, fields);
  }

  lemma AndOneRejects(get: nat -> string)
    requires get(0) != "x"
    ensures var atom := Node("", Node("field", Nil, Node("x", Nil, Nil)), Nil);
            var clause := Parse(Node("", Node("and", Nil, atom), Nil), map["field" := 0]);
            clause.Some? && !Match(get, clause.value)
  {
    var fields := map["field" := 0];
    var atom := Node("", Node("field", Nil, Node("x", Nil, Nil)), Nil);
    var node := Node("", Node("and", Nil, atom), Nil);
    CountIs(atom.children);
    CountIs(node.children);
    assert Parse(atom, fields) == Some(Atom(0, "x"));
    assert Parse(node, fields) == Parse(atom, fields);
  }
}
