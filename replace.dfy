/** The identifier rewriter of replace.go: it walks a syntax tree, replaces every
    identifier with a given name by a fresh copy of a replacement expression
    stamped with the identifier's position, and drops the back-links
    (`*ast.Object`, `*ast.Scope`) that could make the walk cyclic.

    The Go code discovers the tree's shape by reflection. Here the shapes it can
    meet form a closed datatype, so every case the walker handles is explicit. */
module Replace {
  import opened Fatal

  /** A `token.Pos`: an offset into the file set; 0 is `token.NoPos`. */
  type Pos = nat

  const NoPos: Pos := 0

  predicate IsValidPos(p: Pos) { p != NoPos }

  /** A back-link (`*ast.Object` or `*ast.Scope`); `Nil` is the nil pointer. */
  datatype Link = Nil | Link(target: nat)

  /** One value reachable from an `*ast.File` by reflection. */
  datatype Node =
    | Ident(name: string, pos: Pos, obj: Link)  // a non-nil *ast.Ident: NamePos, Name, Obj
    | Seq(elems: seq<Node>)                     // a slice
    | Struct(fields: seq<Node>)                 // a struct, reached through a pointer
    | Iface(elem: Option<Node>)                 // an interface slot; None when it is nil
    | Ref(link: Link)                           // an *ast.Object or *ast.Scope field
    | PosLeaf(p: Pos)                           // a token.Pos field
    | Other(text: string)                       // strings, numbers, nil pointers, ...

  datatype Option<T> = None | Some(value: T)

  // ---------------------------------------------------------------------------
  // Observations used to state what the walker does

  /** No back-link is set anywhere in `n`. */
  predicate NoLinks(n: Node) {
    match n
    case Ident(_, _, obj) => obj == Nil
    case Seq(es) => forall i :: 0 <= i < |es| ==> NoLinks(es[i])
    case Struct(fs) => forall i :: 0 <= i < |fs| ==> NoLinks(fs[i])
    case Iface(e) => e.Some? ==> NoLinks(e.value)
    case Ref(l) => l == Nil
    case PosLeaf(_) => true
    case Other(_) => true
  }

  /** Some identifier in `n` is called `id`. */
  predicate Mentions(n: Node, id: string) {
    match n
    case Ident(name, _, _) => name == id
    case Seq(es) => exists i :: 0 <= i < |es| && Mentions(es[i], id)
    case Struct(fs) => exists i :: 0 <= i < |fs| && Mentions(fs[i], id)
    case Iface(e) => e.Some? && Mentions(e.value, id)
    case Ref(_) => false
    case PosLeaf(_) => false
    case Other(_) => false
  }

  /** `n` with every back-link set to nil and nothing else changed. */
  function Erase(n: Node): (r: Node)
    ensures NoLinks(r)
  {
    match n
    case Ident(name, p, _) => Ident(name, p, Nil)
    case Seq(es) => Seq(seq(|es|, i requires 0 <= i < |es| => Erase(es[i])))
    case Struct(fs) => Struct(seq(|fs|, i requires 0 <= i < |fs| => Erase(fs[i])))
    case Iface(e) => if e.None? then n else Iface(Some(Erase(e.value)))
    case Ref(_) => Ref(Nil)
    case PosLeaf(_) => n
    case Other(_) => n
  }

  /** Every position in `n` is `q` or invalid. */
  predicate PositionsAre(n: Node, q: Pos) {
    match n
    case Ident(_, p, _) => p == q || !IsValidPos(p)
    case Seq(es) => forall i :: 0 <= i < |es| ==> PositionsAre(es[i], q)
    case Struct(fs) => forall i :: 0 <= i < |fs| ==> PositionsAre(fs[i], q)
    case Iface(e) => e.Some? ==> PositionsAre(e.value, q)
    case Ref(_) => true
    case PosLeaf(p) => p == q || !IsValidPos(p)
    case Other(_) => true
  }

  /** `n` with its links erased and each position reduced to valid (1) or not (0). */
  function Skeleton(n: Node): Node {
    match n
    case Ident(name, p, _) => Ident(name, if IsValidPos(p) then 1 else 0, Nil)
    case Seq(es) => Seq(seq(|es|, i requires 0 <= i < |es| => Skeleton(es[i])))
    case Struct(fs) => Struct(seq(|fs|, i requires 0 <= i < |fs| => Skeleton(fs[i])))
    case Iface(e) => if e.None? then n else Iface(Some(Skeleton(e.value)))
    case Ref(_) => Ref(Nil)
    case PosLeaf(p) => PosLeaf(if IsValidPos(p) then 1 else 0)
    case Other(_) => n
  }

  // ---------------------------------------------------------------------------
  // subst (replace.go:104-163)

  /** The position `subst` gives a `token.Pos` of the pattern: the new one only
      where the old one was valid. */
  function Stamp(was: Pos, pos: Pos): Pos {
    if IsValidPos(was) then pos else was
  }

  /** A fresh copy of `pattern` whose valid positions are all `pos` and whose
      back-links are nil. */
  function Subst(pattern: Node, pos: Pos): Node {
    match pattern
    case Ident(name, p, _) => Ident(name, Stamp(p, pos), Nil)
    case Seq(es) => Seq(seq(|es|, i requires 0 <= i < |es| => Subst(es[i], pos)))
    case Struct(fs) => Struct(seq(|fs|, i requires 0 <= i < |fs| => Subst(fs[i], pos)))
    case Iface(e) => if e.None? then pattern else Iface(Some(Subst(e.value, pos)))
    case Ref(_) => Ref(Nil)
    case PosLeaf(p) => PosLeaf(Stamp(p, pos))
    case Other(_) => pattern
  }

  // ---------------------------------------------------------------------------
  // set (replace.go:43-55)

  /** `set(x, y)` on a slot currently holding `slot`. Nothing happens when the
      slot cannot be set or `y` is the invalid value (None). An interface slot
      takes any value; any other slot takes only a value of its own kind, and
      reflect's panic on anything else is turned into a fatal error. */
  function SetSlot(slot: Node, settable: bool, y: Option<Node>): (r: Result<Node>)
    ensures !settable || y.None? ==> r == Ok(slot)
    ensures settable && y.Some? && slot.Iface? ==> r.Ok? && r.value.Iface?
    ensures settable && y.Some? && !slot.Iface? ==>
              (r.Ok? <==> SameKind(slot, y.value)) && (r.Ok? ==> r.value == y.value)
  {
    if !settable || y.None? then Ok(slot)
    else if slot.Iface? then Ok(if y.value.Iface? then y.value else Iface(Some(y.value)))
    else if SameKind(slot, y.value) then Ok(y.value)
    else Err(SetFailure)
  }

  predicate SameKind(a: Node, b: Node) {
    match a
    case Ident(_, _, _) => b.Ident?
    case Seq(_) => b.Seq?
    case Struct(_) => b.Struct?
    case Iface(_) => b.Iface?
    case Ref(_) => b.Ref?
    case PosLeaf(_) => b.PosLeaf?
    case Other(_) => b.Other?
  }

  // ---------------------------------------------------------------------------
  // apply and rewriteVal (replace.go:19-41, 67-102), as functions

  /** `apply(rewriteVal, n)`: every slot of `n` is set to the rewriting of what
      it holds; back-links become nil and are never followed. */
  function Apply(n: Node, id: string, repl: Node): Result<Node>
    decreases n, 0
  {
    match n
    case Ref(_) => Ok(Ref(Nil))
    case Ident(name, p, _) =>
      // an *ast.Ident is a struct too: NamePos and Name stay, and its Obj
      // field is a back-link, which becomes nil
      Ok(Ident(name, p, Nil))
    case Seq(es) =>
      var es' :- ApplyEach(es, id, repl);
      Ok(Seq(es'))
    case Struct(fs) =>
      var fs' :- ApplyEach(fs, id, repl);
      Ok(Struct(fs'))
    case Iface(e) =>
      if e.None? then SetSlot(n, true, None)
      else
        var e' :- Rewrite(e.value, id, repl);
        SetSlot(n, true, Some(e'))
    case PosLeaf(_) => Ok(n)
    case Other(_) => Ok(n)
  }

  /** The slots `es` of one slice or struct, set one after the other, front to
      back; the first failure ends the walk. */
  function ApplyEach(es: seq<Node>, id: string, repl: Node): Result<seq<Node>>
    decreases es
  {
    if es == [] then Ok([])
    else
      var init :- ApplyEach(es[..|es| - 1], id, repl);
      var last := es[|es| - 1];
      var y :- Rewrite(last, id, repl);
      var slot :- SetSlot(last, true, Some(y));
      Ok(init + [slot])
  }

  /** The value an interface or pointer slot dynamically holds. */
  function Dynamic(n: Node): Node {
    if n.Iface? && n.elem.Some? then n.elem.value else n
  }

  /** `rewriteVal`: the children first, then a matching identifier is replaced
      by a copy of `repl` stamped with its position. The copy is not walked. */
  function Rewrite(n: Node, id: string, repl: Node): Result<Node>
    decreases n, 1
  {
    var n' :- Apply(n, id, repl);
    var d := Dynamic(n');
    if d.Ident? && d.name == id then Ok(Subst(repl, d.pos)) else Ok(n')
  }

  // ---------------------------------------------------------------------------
  // What the walk computes: plain substitution

  /** An interface slot holds a concrete value, never another interface. */
  predicate WellFormed(n: Node) {
    match n
    case Ident(_, _, _) => true
    case Seq(es) => forall i :: 0 <= i < |es| ==> WellFormed(es[i])
    case Struct(fs) => forall i :: 0 <= i < |fs| ==> WellFormed(fs[i])
    case Iface(e) => e.Some? ==> !e.value.Iface? && WellFormed(e.value)
    case Ref(_) => true
    case PosLeaf(_) => true
    case Other(_) => true
  }

  /** A slice element or struct field somewhere in `n` (not an interface slot)
      holds an identifier called `id`: a slot whose static type is `*ast.Ident`. */
  predicate HasIdentSlot(n: Node, id: string)
    decreases n, 1
  {
    match n
    case Ident(_, _, _) => false
    case Seq(es) => exists i :: 0 <= i < |es| && IdentSlotAt(es[i], id)
    case Struct(fs) => exists i :: 0 <= i < |fs| && IdentSlotAt(fs[i], id)
    case Iface(e) => e.Some? && HasIdentSlot(e.value, id)
    case Ref(_) => false
    case PosLeaf(_) => false
    case Other(_) => false
  }

  predicate IdentSlotAt(child: Node, id: string)
    decreases child, 2
  {
    (child.Ident? && child.name == id) || HasIdentSlot(child, id)
  }

  /** The reference definition: every identifier called `id` becomes a copy of
      `repl` stamped with its position, every back-link becomes nil, and
      nothing else changes. */
  function Replaced(n: Node, id: string, repl: Node): Node {
    match n
    case Ident(name, p, _) => if name == id then Subst(repl, p) else Ident(name, p, Nil)
    case Seq(es) => Seq(seq(|es|, i requires 0 <= i < |es| => Replaced(es[i], id, repl)))
    case Struct(fs) => Struct(seq(|fs|, i requires 0 <= i < |fs| => Replaced(fs[i], id, repl)))
    case Iface(e) => if e.None? then n else Iface(Some(Replaced(e.value, id, repl)))
    case Ref(_) => Ref(Nil)
    case PosLeaf(_) => n
    case Other(_) => n
  }

  lemma {:induction false} SubstKind(pattern: Node, pos: Pos)
    ensures SameKind(pattern, Subst(pattern, pos))
  {
  }

  /** Restamping a copy of an identifier pattern changes nothing. */
  lemma {:induction false} SubstIdentAgain(repl: Node, p: Pos)
    requires repl.Ident?
    ensures Subst(repl, Subst(repl, p).pos) == Subst(repl, p)
  {
  }

  /** The walk, when it succeeds, is the plain substitution; it succeeds
      exactly when no `*ast.Ident` slot would receive a replacement that is not
      an identifier. The rewriting of an interface slot is what the slot holds
      once it is set to it. */
  lemma {:induction false} RewriteIsReplaced(n: Node, id: string, repl: Node)
    requires WellFormed(n) && WellFormed(repl) && !repl.Iface?
    ensures Rewrite(n, id, repl).Ok? <==> (repl.Ident? || !HasIdentSlot(n, id))
    ensures Rewrite(n, id, repl).Ok? && !n.Iface? ==>
              Rewrite(n, id, repl).value == Replaced(n, id, repl)
    ensures Rewrite(n, id, repl).Ok? && n.Iface? ==>
              SetSlot(n, true, Some(Rewrite(n, id, repl).value)) == Ok(Replaced(n, id, repl))
    ensures Apply(n, id, repl).Ok? <==> Rewrite(n, id, repl).Ok?
    ensures Apply(n, id, repl).Ok? && !n.Ident? ==> Apply(n, id, repl).value == Replaced(n, id, repl)
    decreases n, 1
  {
    match n
    case Ident(name, p, _) =>
      if name == id { SubstKind(repl, p); }
    case Seq(es) =>
      ApplyEachIsReplaced(es, id, repl);
      var want := seq(|es|, i requires 0 <= i < |es| => Replaced(es[i], id, repl));
      assert want == Replaced(n, id, repl).elems;
    case Struct(fs) =>
      ApplyEachIsReplaced(fs, id, repl);
      var want := seq(|fs|, i requires 0 <= i < |fs| => Replaced(fs[i], id, repl));
      assert want == Replaced(n, id, repl).fields;
    case Iface(e) =>
      if e.Some? {
        var x := e.value;
        RewriteIsReplaced(x, id, repl);
        var rx := Rewrite(x, id, repl);
        if rx.Ok? {
          if x.Ident? && x.name == id {
            SubstKind(repl, x.pos);
            if repl.Ident? && repl.name == id {
              SubstIdentAgain(repl, x.pos);
            }
          } else {
            ReplacedKind(x, id, repl);
          }
        }
      }
    case Ref(_) =>
    case PosLeaf(_) =>
    case Other(_) =>
  }

  lemma {:induction false} ReplacedKind(n: Node, id: string, repl: Node)
    requires !(n.Ident? && n.name == id)
    ensures SameKind(n, Replaced(n, id, repl))
  {
  }

  lemma {:induction false} ApplyEachIsReplaced(es: seq<Node>, id: string, repl: Node)
    requires forall i :: 0 <= i < |es| ==> WellFormed(es[i])
    requires WellFormed(repl) && !repl.Iface?
    ensures ApplyEach(es, id, repl).Ok? <==>
              (repl.Ident? || forall i :: 0 <= i < |es| ==> !IdentSlotAt(es[i], id))
    ensures ApplyEach(es, id, repl).Ok? ==>
              ApplyEach(es, id, repl).value
                == seq(|es|, i requires 0 <= i < |es| => Replaced(es[i], id, repl))
    decreases es
  {
    if es != [] {
      var init := es[..|es| - 1];
      var last := es[|es| - 1];
      ApplyEachIsReplaced(init, id, repl);
      RewriteIsReplaced(last, id, repl);
      var ri := ApplyEach(init, id, repl);
      var rl := Rewrite(last, id, repl);
      if ri.Ok? && rl.Ok? {
        if last.Ident? && last.name == id {
          SubstKind(repl, last.pos);
        } else {
          ReplacedKind(last, id, repl);
        }
      }
      if !repl.Ident? && (exists i :: 0 <= i < |es| && IdentSlotAt(es[i], id)) {
        var i :| 0 <= i < |es| && IdentSlotAt(es[i], id);
        if i < |es| - 1 {
          assert IdentSlotAt(init[i], id);
        }
      }
    }
  }

  // ---------------------------------------------------------------------------
  // Properties of subst and of the substitution

  /** A copy made by `subst` carries no back-link. */
  lemma {:induction false} SubstNoLinks(pattern: Node, pos: Pos)
    ensures NoLinks(Subst(pattern, pos))
  {
    match pattern
    case Seq(es) =>
      forall i | 0 <= i < |es| { SubstNoLinks(es[i], pos); }
    case Struct(fs) =>
      forall i | 0 <= i < |fs| { SubstNoLinks(fs[i], pos); }
    case Iface(e) =>
      if e.Some? { SubstNoLinks(e.value, pos); }
    case _ =>
  }

  /** Every valid position of the copy is the identifier's position, and
      positions that were invalid stay invalid. */
  lemma {:induction false} SubstPositions(pattern: Node, pos: Pos)
    ensures PositionsAre(Subst(pattern, pos), pos)
  {
    match pattern
    case Seq(es) =>
      forall i | 0 <= i < |es| { SubstPositions(es[i], pos); }
    case Struct(fs) =>
      forall i | 0 <= i < |fs| { SubstPositions(fs[i], pos); }
    case Iface(e) =>
      if e.Some? { SubstPositions(e.value, pos); }
    case _ =>
  }

  /** Stamped with a valid position, the copy has the pattern's shape: the same
      names, kinds and values, and a valid position exactly where the pattern
      had one. */
  lemma {:induction false} SubstSkeleton(pattern: Node, pos: Pos)
    requires IsValidPos(pos)
    ensures Skeleton(Subst(pattern, pos)) == Skeleton(pattern)
  {
    match pattern
    case Seq(es) =>
      forall i | 0 <= i < |es| { SubstSkeleton(es[i], pos); }
      assert Skeleton(Subst(pattern, pos)).elems == Skeleton(pattern).elems;
    case Struct(fs) =>
      forall i | 0 <= i < |fs| { SubstSkeleton(fs[i], pos); }
      assert Skeleton(Subst(pattern, pos)).fields == Skeleton(pattern).fields;
    case Iface(e) =>
      if e.Some? { SubstSkeleton(e.value, pos); }
    case _ =>
  }

  /** Copying a copy: the last valid position wins, and a copy stamped with
      `token.NoPos` keeps the pattern's positions. */
  lemma {:induction false} SubstTwice(pattern: Node, q: Pos, r: Pos)
    ensures Subst(Subst(pattern, q), r) == Subst(pattern, if IsValidPos(q) then r else q)
  {
    match pattern
    case Seq(es) =>
      forall i | 0 <= i < |es| { SubstTwice(es[i], q, r); }
      assert Subst(Subst(pattern, q), r).elems
          == Subst(pattern, if IsValidPos(q) then r else q).elems;
    case Struct(fs) =>
      forall i | 0 <= i < |fs| { SubstTwice(fs[i], q, r); }
      assert Subst(Subst(pattern, q), r).fields
          == Subst(pattern, if IsValidPos(q) then r else q).fields;
    case Iface(e) =>
      if e.Some? { SubstTwice(e.value, q, r); }
    case _ =>
  }

  /** A copy names exactly the identifiers its pattern names. */
  lemma {:induction false} SubstMentions(pattern: Node, pos: Pos, x: string)
    ensures Mentions(Subst(pattern, pos), x) <==> Mentions(pattern, x)
  {
    match pattern
    case Seq(es) =>
      forall i | 0 <= i < |es| { SubstMentions(es[i], pos, x); }
      if Mentions(pattern, x) {
        var i :| 0 <= i < |es| && Mentions(es[i], x);
        assert Mentions(Subst(pattern, pos).elems[i], x);
      }
    case Struct(fs) =>
      forall i | 0 <= i < |fs| { SubstMentions(fs[i], pos, x); }
      if Mentions(pattern, x) {
        var i :| 0 <= i < |fs| && Mentions(fs[i], x);
        assert Mentions(Subst(pattern, pos).fields[i], x);
      }
    case Iface(e) =>
      if e.Some? { SubstMentions(e.value, pos, x); }
    case _ =>
  }

  /** After the substitution no back-link is left anywhere. */
  lemma {:induction false} ReplacedNoLinks(n: Node, id: string, repl: Node)
    ensures NoLinks(Replaced(n, id, repl))
  {
    match n
    case Ident(name, p, _) =>
      if name == id { SubstNoLinks(repl, p); }
    case Seq(es) =>
      forall i | 0 <= i < |es| { ReplacedNoLinks(es[i], id, repl); }
    case Struct(fs) =>
      forall i | 0 <= i < |fs| { ReplacedNoLinks(fs[i], id, repl); }
    case Iface(e) =>
      if e.Some? { ReplacedNoLinks(e.value, id, repl); }
    case _ =>
  }

  /** A tree that never names `id` only loses its back-links. */
  lemma {:induction false} ReplacedUnmentioned(n: Node, id: string, repl: Node)
    requires !Mentions(n, id)
    ensures Replaced(n, id, repl) == Erase(n)
  {
    match n
    case Seq(es) =>
      forall i | 0 <= i < |es| { ReplacedUnmentioned(es[i], id, repl); }
      assert Replaced(n, id, repl).elems == Erase(n).elems;
    case Struct(fs) =>
      forall i | 0 <= i < |fs| { ReplacedUnmentioned(fs[i], id, repl); }
      assert Replaced(n, id, repl).fields == Erase(n).fields;
    case Iface(e) =>
      if e.Some? { ReplacedUnmentioned(e.value, id, repl); }
    case _ =>
  }

  /** Unless the replacement itself names `id`, no identifier called `id` is
      left; every other name that was there still is. */
  lemma {:induction false} ReplacedMentions(n: Node, id: string, repl: Node, x: string)
    ensures x != id ==> (Mentions(n, x) ==> Mentions(Replaced(n, id, repl), x))
    ensures !Mentions(repl, id) ==> !Mentions(Replaced(n, id, repl), id)
  {
    match n
    case Ident(name, p, _) =>
      if name == id { SubstMentions(repl, p, id); }
    case Seq(es) =>
      forall i | 0 <= i < |es| { ReplacedMentions(es[i], id, repl, x); }
      if x != id && Mentions(n, x) {
        var i :| 0 <= i < |es| && Mentions(es[i], x);
        assert Mentions(Replaced(n, id, repl).elems[i], x);
      }
    case Struct(fs) =>
      forall i | 0 <= i < |fs| { ReplacedMentions(fs[i], id, repl, x); }
      if x != id && Mentions(n, x) {
        var i :| 0 <= i < |fs| && Mentions(fs[i], x);
        assert Mentions(Replaced(n, id, repl).fields[i], x);
      }
    case Iface(e) =>
      if e.Some? { ReplacedMentions(e.value, id, repl, x); }
    case _ =>
  }

  /** Every name the substitution leaves is one that was there and is not
      `id`, or one the replacement brings in. */
  lemma {:induction false} ReplacedMentionsOnly(n: Node, id: string, repl: Node, x: string)
    ensures Mentions(Replaced(n, id, repl), x) ==> (x != id && Mentions(n, x)) || Mentions(repl, x)
  {
    match n
    case Ident(name, p, _) =>
      if name == id { SubstMentions(repl, p, x); }
    case Seq(es) =>
      if Mentions(Replaced(n, id, repl), x) {
        var i :| 0 <= i < |es| && Mentions(Replaced(n, id, repl).elems[i], x);
        ReplacedMentionsOnly(es[i], id, repl, x);
      }
    case Struct(fs) =>
      if Mentions(Replaced(n, id, repl), x) {
        var i :| 0 <= i < |fs| && Mentions(Replaced(n, id, repl).fields[i], x);
        ReplacedMentionsOnly(fs[i], id, repl, x);
      }
    case Iface(e) =>
      if e.Some? { ReplacedMentionsOnly(e.value, id, repl, x); }
    case _ =>
  }

  lemma {:induction false} SubstWellFormed(pattern: Node, pos: Pos)
    requires WellFormed(pattern)
    ensures WellFormed(Subst(pattern, pos))
  {
    match pattern
    case Seq(es) =>
      forall i | 0 <= i < |es| { SubstWellFormed(es[i], pos); }
    case Struct(fs) =>
      forall i | 0 <= i < |fs| { SubstWellFormed(fs[i], pos); }
    case Iface(e) =>
      if e.Some? {
        SubstWellFormed(e.value, pos);
        SubstKind(e.value, pos);
      }
    case _ =>
  }

  /** The substitution keeps interface slots holding concrete values, so one
      rewritten tree can be rewritten again. */
  lemma {:induction false} ReplacedWellFormed(n: Node, id: string, repl: Node)
    requires WellFormed(n) && WellFormed(repl) && !repl.Iface?
    ensures WellFormed(Replaced(n, id, repl))
  {
    match n
    case Ident(name, p, _) =>
      if name == id { SubstWellFormed(repl, p); }
    case Seq(es) =>
      forall i | 0 <= i < |es| { ReplacedWellFormed(es[i], id, repl); }
    case Struct(fs) =>
      forall i | 0 <= i < |fs| { ReplacedWellFormed(fs[i], id, repl); }
    case Iface(e) =>
      if e.Some? {
        ReplacedWellFormed(e.value, id, repl);
        if e.value.Ident? && e.value.name == id {
          SubstKind(repl, e.value.pos);
        } else {
          ReplacedKind(e.value, id, repl);
        }
      }
    case _ =>
  }

  /** A successful walk leaves every slot holding a value of the kind it held:
      the static types of Go's fields and slice elements do not change. */
  lemma {:induction false} ApplyEachKinds(es: seq<Node>, id: string, repl: Node)
    ensures ApplyEach(es, id, repl).Ok? ==>
              |ApplyEach(es, id, repl).value| == |es| &&
              forall i :: 0 <= i < |es| ==> SameKind(es[i], ApplyEach(es, id, repl).value[i])
    decreases es
  {
    if es != [] {
      ApplyEachKinds(es[..|es| - 1], id, repl);
    }
  }

  // ---------------------------------------------------------------------------
  // The walker as the Go code runs it: loops over slice indices and struct
  // fields, each slot set in place to what the recursive call returned.

  method ApplyVal(n: Node, id: string, repl: Node) returns (r: Result<Node>)
    ensures r == Apply(n, id, repl)
    decreases n, 0
  {
    match n {
      case Ref(_) =>
        return Ok(Ref(Nil));
      case Ident(name, p, _) =>
        return Ok(Ident(name, p, Nil));
      case Seq(es) =>
        var es' := ApplySlots(es, id, repl);
        if es'.Err? { return Err(es'.error); }
        return Ok(Seq(es'.value));
      case Struct(fs) =>
        var fs' := ApplySlots(fs, id, repl);
        if fs'.Err? { return Err(fs'.error); }
        return Ok(Struct(fs'.value));
      case Iface(e) =>
        if e.None? {
          return SetSlot(n, true, None);
        }
        var e' := RewriteVal(e.value, id, repl);
        if e'.Err? { return Err(e'.error); }
        return SetSlot(n, true, Some(e'.value));
      case PosLeaf(_) =>
        return Ok(n);
      case Other(_) =>
        return Ok(n);
    }
  }

  /** The loop `for i := 0; i < v.Len(); i++ { e := v.Index(i); set(e, f(e)) }`. */
  method ApplySlots(es: seq<Node>, id: string, repl: Node) returns (r: Result<seq<Node>>)
    ensures r == ApplyEach(es, id, repl)
    decreases es, 2
  {
    var cur := es;
    var i := 0;
    while i < |es|
      invariant 0 <= i <= |es| && |cur| == |es|
      invariant ApplyEach(es[..i], id, repl) == Ok(cur[..i])
      invariant forall k :: i <= k < |es| ==> cur[k] == es[k]
    {
      ApplyEachNext(es, i, id, repl);
      var slot := RewriteSlot(cur[i], id, repl);
      if slot.Err? {
        ApplyEachPrefixErr(es, i + 1, id, repl);
        return Err(slot.error);
      }
      SetPrefix(cur, i, slot.value);
      cur := cur[i := slot.value];
      i := i + 1;
    }
    assert es[..i] == es;
    assert cur[..i] == cur;
    return Ok(cur);
  }

  /** One slot of a slice or struct: its value rewritten, then set back. */
  method RewriteSlot(e: Node, id: string, repl: Node) returns (r: Result<Node>)
    ensures r == (var y :- Rewrite(e, id, repl); SetSlot(e, true, Some(y)))
    decreases e, 2
  {
    var y := RewriteVal(e, id, repl);
    if y.Err? { return Err(y.error); }
    r := SetSlot(e, true, Some(y.value));
  }

  /** One more slot of the walk. */
  lemma ApplyEachNext(es: seq<Node>, i: nat, id: string, repl: Node)
    requires i < |es|
    ensures ApplyEach(es[..i + 1], id, repl) ==
      (var init :- ApplyEach(es[..i], id, repl);
       var y :- Rewrite(es[i], id, repl);
       var slot :- SetSlot(es[i], true, Some(y));
       Ok(init + [slot]))
  {
    assert es[..i + 1][..i] == es[..i];
  }

  lemma SetPrefix<T>(s: seq<T>, i: nat, x: T)
    requires i < |s|
    ensures s[i := x][..i + 1] == s[..i] + [x]
  {
  }

  /** A failure in the first `k` slots is the failure of the whole walk. */
  lemma {:induction false} ApplyEachPrefixErr(es: seq<Node>, k: nat, id: string, repl: Node)
    requires k <= |es| && ApplyEach(es[..k], id, repl).Err?
    ensures ApplyEach(es, id, repl) == ApplyEach(es[..k], id, repl)
    decreases |es|
  {
    if k < |es| {
      var init := es[..|es| - 1];
      assert init[..k] == es[..k];
      ApplyEachPrefixErr(init, k, id, repl);
    } else {
      assert es[..k] == es;
    }
  }

  method RewriteVal(n: Node, id: string, repl: Node) returns (r: Result<Node>)
    ensures r == Rewrite(n, id, repl)
    decreases n, 1
  {
    var n' := ApplyVal(n, id, repl);
    if n'.Err? { return n'; }
    var d := Dynamic(n'.value);
    if d.Ident? && d.name == id {
      return Ok(Subst(repl, d.pos));
    }
    return n';
  }

  /** `rewriteFile`: the file's own slots are rewritten; the file node itself
      is not a candidate for replacement. */
  method RewriteFile(file: Node, id: string, repl: Node) returns (r: Result<Node>)
    requires file.Struct?
    ensures r == Apply(file, id, repl)
    ensures WellFormed(file) && WellFormed(repl) && !repl.Iface? ==>
              (r.Ok? <==> repl.Ident? || !HasIdentSlot(file, id)) &&
              (r.Ok? ==> r.value == Replaced(file, id, repl) && NoLinks(r.value))
  {
    r := ApplyVal(file, id, repl);
    if WellFormed(file) && WellFormed(repl) && !repl.Iface? {
      RewriteIsReplaced(file, id, repl);
      ReplacedNoLinks(file, id, repl);
    }
  }
}
