/** The instantiation engine of template.go: it finds the `template type`
    directive of a template file, removes the stub declarations that stand for
    the formal parameters, works out the name each remaining top-level
    declaration gets in the instance, and rewrites the file with those names
    and with the actual arguments in place of the formal ones.

    Go's parser and regular expressions are not modelled: a comment line
    arrives already classified as a directive (with its parsed call) or not,
    and a file arrives as its declarations. */
module Template {
  import opened Fatal
  import opened Replace

  // ---------------------------------------------------------------------------
  // Strings: the parts of `strings` and `go/ast` that addMapping uses

  /** `strings.ToUpper` of a one-letter string (ASCII letters). */
  function ToUpper(c: char): char {
    if 'a' <= c <= 'z' then (c as int - 32) as char else c
  }

  /** `strings.ToLower` of a one-letter string (ASCII letters). */
  function ToLower(c: char): char {
    if 'A' <= c <= 'Z' then (c as int + 32) as char else c
  }

  /** `ast.IsExported`: the name starts with an upper-case letter. */
  predicate IsExported(s: string) {
    |s| > 0 && 'A' <= s[0] <= 'Z'
  }

  /** `strings.ToUpper(s[:1]) + s[1:]` */
  function Capitalized(s: string): string
    requires |s| > 0
  {
    [ToUpper(s[0])] + s[1..]
  }

  /** `strings.ToLower(s[:1]) + s[1:]` */
  function Decapitalized(s: string): string
    requires |s| > 0
  {
    [ToLower(s[0])] + s[1..]
  }

  predicate OccursAt(s: string, sub: string, i: int) {
    0 <= i && i + |sub| <= |s| && s[i..i + |sub|] == sub
  }

  /** `strings.Contains` */
  predicate Contains(s: string, sub: string) {
    exists i :: 0 <= i <= |s| && OccursAt(s, sub, i)
  }

  /** The first occurrence of `sub` in `s` at or after `k`, or -1. */
  function IndexFrom(s: string, sub: string, k: nat): (r: int)
    ensures r == -1 || (k <= r && OccursAt(s, sub, r))
    ensures forall i :: k <= i && (r == -1 || i < r) ==> !OccursAt(s, sub, i)
    decreases |s| - k
  {
    if k + |sub| > |s| then -1
    else if s[k..k + |sub|] == sub then k
    else IndexFrom(s, sub, k + 1)
  }

  /** `strings.Index`: the first occurrence of `sub` in `s`, or -1 when there
      is none. */
  function Index(s: string, sub: string): (r: int)
    ensures r == -1 <==> !Contains(s, sub)
    ensures r != -1 ==> OccursAt(s, sub, r) && forall i :: 0 <= i < r ==> !OccursAt(s, sub, i)
  {
    IndexFrom(s, sub, 0)
  }

  /** `strings.Replace(s, pat, by, 1)`: the first occurrence of `pat`, if any,
      becomes `with`. */
  function ReplaceFirst(s: string, pat: string, with: string): string {
    var i := Index(s, pat);
    if i < 0 then s else s[..i] + with + s[i + |pat|..]
  }

  // ---------------------------------------------------------------------------
  // The name a top-level declaration gets (addMapping, template.go:56-78)

  /** The name before the casing rule: a name without the template name gets
      the instance name, capitalised, appended; otherwise the first occurrence
      of the template name becomes the instance name, capitalised unless the
      occurrence starts the name. */
  function Candidate(name: string, templateName: string, instName: string): string
    requires |instName| > 0
  {
    if !Contains(name, templateName) then name + Capitalized(instName)
    else
      var inner := if Index(name, templateName) != 0 then Capitalized(instName) else instName;
      ReplaceFirst(name, templateName, inner)
  }

  /** The casing rule: when the instance name is not exported, an exported
      candidate has its first letter lower-cased. */
  function Privatized(c: string, newIsPublic: bool): string
    requires |c| > 0
  {
    if !newIsPublic && IsExported(c) then Decapitalized(c) else c
  }

  /** The replacement name `addMapping` computes for `name`. */
  function MappedName(name: string, templateName: string, instName: string, newIsPublic: bool): (r: string)
    requires |instName| > 0
    ensures |r| > 0
    ensures !newIsPublic ==> !IsExported(r)
  {
    var c := Candidate(name, templateName, instName);
    assert |c| > 0 by {
      if Contains(name, templateName) {
        var i := Index(name, templateName);
        assert |c| == |name| - |templateName| + |(if i != 0 then Capitalized(instName) else instName)|;
      }
    }
    Privatized(c, newIsPublic)
  }

  /** A name that does not contain the template name gets the instance name,
      first letter capitalised, appended; only the casing rule may then lower
      its first letter. */
  lemma MappedNameAppends(name: string, templateName: string, instName: string, newIsPublic: bool)
    requires |instName| > 0 && !Contains(name, templateName)
    ensures var r := MappedName(name, templateName, instName, newIsPublic);
            var c := name + Capitalized(instName);
            r[1..] == c[1..] && (r[0] == c[0] || (!newIsPublic && r[0] == ToLower(c[0])))
  {
  }

  /** A name that contains the template name has its first occurrence, at
      index `i`, replaced by the instance name, capitalised unless `i` is 0;
      the rest of the name is kept. */
  lemma MappedNameReplacesFirst(name: string, templateName: string, instName: string, newIsPublic: bool, i: nat)
    requires |instName| > 0 && OccursAt(name, templateName, i)
    requires forall j :: 0 <= j < i ==> !OccursAt(name, templateName, j)
    ensures var r := MappedName(name, templateName, instName, newIsPublic);
            var c := name[..i] + (if i == 0 then instName else Capitalized(instName)) + name[i + |templateName|..];
            |r| == |c| && r[1..] == c[1..] && (r[0] == c[0] || (!newIsPublic && r[0] == ToLower(c[0])))
  {
    assert Contains(name, templateName);
    var k := Index(name, templateName);
    assert OccursAt(name, templateName, i) ==> k <= i;
    assert k < i ==> !OccursAt(name, templateName, k);
    var c := name[..i] + (if i == 0 then instName else Capitalized(instName)) + name[i + |templateName|..];
    assert Candidate(name, templateName, instName) == c;
  }

  /** An exported instance name leaves every candidate's casing alone; an
      unexported one changes at most the first letter, and only of an
      exported candidate. */
  lemma MappedNameCasing(name: string, templateName: string, instName: string, newIsPublic: bool)
    requires |instName| > 0
    ensures var c := Candidate(name, templateName, instName);
            var r := MappedName(name, templateName, instName, newIsPublic);
            (newIsPublic ==> r == c) &&
            (!newIsPublic && !IsExported(c) ==> r == c) &&
            (!newIsPublic && IsExported(c) ==> r == [ToLower(c[0])] + c[1..])
  {
  }

  /** template_test.go: the template name itself becomes the instance name. */
  lemma MappedNameTemplateExample()
    ensures MappedName("Set", "Set", "MySet", true) == "MySet"
  {
    assert IndexFrom("Set", "Set", 0) == 0;
    assert Index("Set", "Set") == 0;
    assert Contains("Set", "Set");
    assert "Set"[..0] == "";
    assert "Set"[3..] == "";
    assert Candidate("Set", "Set", "MySet") == "MySet";
  }

  /** template_test.go: an inner occurrence gets the capitalised instance name. */
  lemma MappedNameInnerExample()
    ensures MappedName("NewSet", "Set", "MySet", true) == "NewMySet"
  {
    FirstOccurrence("NewSet", "Set", 3);
    assert "NewSet"[..3] == "New";
    assert "NewSet"[6..] == "";
    assert Candidate("NewSet", "Set", "MySet") == "NewMySet";
  }

  /** template_test.go: a name without the template name gets the instance name appended. */
  lemma MappedNameSuffixExample()
    ensures MappedName("UtilityFunc1", "Set", "MySet", true) == "UtilityFunc1MySet"
  {
    NoLeadChar("UtilityFunc1", "Set");
    assert Candidate("UtilityFunc1", "Set", "MySet") == "UtilityFunc1MySet";
  }

  /** An occurrence of `sub` with no earlier copy of its first character is
      the first. */
  lemma FirstOccurrence(s: string, sub: string, i: nat)
    requires |sub| > 0 && OccursAt(s, sub, i) && sub[0] !in s[..i]
    ensures Contains(s, sub) && Index(s, sub) == i
  {
  }

  /** A string without the first character of `sub` does not contain it. */
  lemma NoLeadChar(s: string, sub: string)
    requires |sub| > 0 && sub[0] !in s
    ensures !Contains(s, sub)
  {
  }

  /** template_test.go: with the unexported instance name `mySet` an exported name is lower-cased. */
  lemma MappedNamePrivateExample()
    ensures MappedName("NewSet", "Set", "mySet", false) == "newMySet"
  {
    FirstOccurrence("NewSet", "Set", 3);
    assert "NewSet"[..3] == "New";
    assert "NewSet"[6..] == "";
    assert Capitalized("mySet") == "MySet";
    assert Candidate("NewSet", "Set", "mySet") == "NewMySet";
    assert "NewMySet"[1..] == "ewMySet";
    assert Privatized("NewMySet", false) == "newMySet";
  }

  /** template_test.go: the same for a name without the template name. */
  lemma MappedNamePrivateSuffixExample()
    ensures MappedName("AVar1", "Set", "mySet", false) == "aVar1MySet"
  {
    NoLeadChar("AVar1", "Set");
    assert Candidate("AVar1", "Set", "mySet") == "AVar1MySet";
  }

  /** template_test.go: template `TT` instantiated as `Min`. */
  lemma MappedNameFunctionExample()
    ensures MappedName("TTone", "TT", "Min", true) == "Minone"
  {
    assert IndexFrom("TTone", "TT", 0) == 0;
    assert Index("TTone", "TT") == 0;
    assert Contains("TTone", "TT");
    assert "TTone"[..0] == "";
    assert "TTone"[2..] == "one";
    assert Candidate("TTone", "TT", "Min") == "Minone";
  }

  // ---------------------------------------------------------------------------
  // The directive (findTemplateDefinition and ensureIdentifiers,
  // template.go:103-145)

  /** An identifier's name: never empty. */
  type Identifier = s: string | |s| > 0 witness "_"

  /** What `parseTemplateAndArgs` makes of the text after `template type`:
      a call `Name(args...)` whose function is an identifier, or anything
      else, which is fatal. */
  datatype Call = Call(fn: Identifier, args: seq<Node>) | Unparsable

  /** One comment line, already matched against the directive pattern of
      template.go:101. */
  datatype CommentLine = Plain | Directive(call: Call)

  /** The directives of one comment group, in order. */
  function DirectivesIn(lines: seq<CommentLine>): seq<Call> {
    if lines == [] then []
    else
      var last := lines[|lines| - 1];
      DirectivesIn(lines[..|lines| - 1]) + (if last.Directive? then [last.call] else [])
  }

  /** The directives of all comment groups of a file, in order. */
  function Directives(groups: seq<seq<CommentLine>>): seq<Call> {
    if groups == [] then []
    else Directives(groups[..|groups| - 1]) + DirectivesIn(groups[|groups| - 1])
  }

  predicate AllIdents(exprs: seq<Node>) {
    forall i :: 0 <= i < |exprs| ==> exprs[i].Ident?
  }

  /** The names of identifier expressions, in order. */
  function IdentNames(exprs: seq<Node>): (r: seq<string>)
    requires AllIdents(exprs)
    ensures |r| == |exprs|
  {
    seq(|exprs|, i requires 0 <= i < |exprs| => exprs[i].name)
  }

  /** `ensureIdentifiers`: the names of the expressions in input order, or a
      fatal error at the first expression that is not an identifier. */
  method EnsureIdentifiers(exprs: seq<Node>) returns (r: Result<seq<string>>)
    ensures r.Ok? <==> AllIdents(exprs)
    ensures r.Ok? ==> |r.value| == |exprs| && forall i :: 0 <= i < |exprs| ==> r.value[i] == exprs[i].name
    ensures r.Err? ==> r.error == NotIdentifier
  {
    var result: seq<string> := [];
    var i := 0;
    while i < |exprs|
      invariant 0 <= i <= |exprs| && |result| == i
      invariant forall k :: 0 <= k < i ==> exprs[k].Ident? && result[k] == exprs[k].name
    {
      if !exprs[i].Ident? {
        return Err(NotIdentifier);
      }
      result := result + [exprs[i].name];
      i := i + 1;
    }
    return Ok(result);
  }

  /** What the directive lookup decides for a file with comment groups
      `groups` and `supplied` actual arguments: the template name and its
      formal parameters, or the fatal error. The first directive is parsed
      before a second one is noticed. */
  function Definition(groups: seq<seq<CommentLine>>, supplied: nat): Result<(Identifier, seq<string>)> {
    var ds := Directives(groups);
    if |ds| == 0 then Err(NoDefinition)
    else if ds[0].Unparsable? then Err(BadDirective)
    else if !AllIdents(ds[0].args) then Err(NotIdentifier)
    else if |ds| > 1 then Err(MultipleDefinitions)
    else if |ds[0].args| != supplied then Err(WrongArity(|ds[0].args|, supplied))
    else Ok((ds[0].fn, IdentNames(ds[0].args)))
  }

  /** The arity error as template.go:124 reports it: the two counts change
      places, so the template's own count is printed as the supplied one. */
  function ArityErrorAsWritten(formals: nat, supplied: nat): (e: Error)
    ensures e.WrongArity? && e.expecting == supplied && e.supplied == formals
  {
    WrongArity(supplied, formals)
  }

  /** Whenever the counts differ, the message as written misstates both. */
  lemma ArityMessageSwapped(formals: nat, supplied: nat)
    requires formals != supplied
    ensures ArityErrorAsWritten(formals, supplied) != WrongArity(formals, supplied)
    ensures ArityErrorAsWritten(1, 2) == WrongArity(2, 1)
  {
  }

  /** With a single well-formed directive, the lookup fails exactly when the
      counts differ, and then reports the template's own count as the one
      expected. */
  lemma DefinitionArity(groups: seq<seq<CommentLine>>, supplied: nat)
    requires |Directives(groups)| == 1 && Directives(groups)[0].Call?
    requires AllIdents(Directives(groups)[0].args)
    ensures var formals := |Directives(groups)[0].args|;
            (Definition(groups, supplied).Err? <==> formals != supplied) &&
            (formals != supplied ==>
               Definition(groups, supplied).error.expecting == formals &&
               Definition(groups, supplied).error.supplied == supplied)
  {
  }

  lemma {:induction false} DirectivesInAppend(a: seq<CommentLine>, b: seq<CommentLine>)
    ensures DirectivesIn(a + b) == DirectivesIn(a) + DirectivesIn(b)
    decreases |b|
  {
    if b == [] {
      assert a + b == a;
    } else {
      assert (a + b)[..|a + b| - 1] == a + b[..|b| - 1];
      DirectivesInAppend(a, b[..|b| - 1]);
    }
  }

  lemma {:induction false} DirectivesAppend(a: seq<seq<CommentLine>>, b: seq<seq<CommentLine>>)
    ensures Directives(a + b) == Directives(a) + Directives(b)
    decreases |b|
  {
    if b == [] {
      assert a + b == a;
    } else {
      assert (a + b)[..|a + b| - 1] == a + b[..|b| - 1];
      DirectivesAppend(a, b[..|b| - 1]);
    }
  }

  /** The directives seen after line `l` of group `g` open the list of all
      directives of the file. */
  lemma DirectivesSplit(groups: seq<seq<CommentLine>>, g: nat, l: nat) returns (rest: seq<Call>)
    requires g < |groups| && l <= |groups[g]|
    ensures Directives(groups) == Directives(groups[..g]) + DirectivesIn(groups[g][..l]) + rest
  {
    var lines := groups[g];
    assert groups == groups[..g] + [lines] + groups[g + 1..];
    DirectivesAppend(groups[..g] + [lines], groups[g + 1..]);
    DirectivesAppend(groups[..g], [lines]);
    assert [lines][..0] == [];
    assert lines == lines[..l] + lines[l..];
    DirectivesInAppend(lines[..l], lines[l..]);
    rest := DirectivesIn(lines[l..]) + Directives(groups[g + 1..]);
    assert Directives(groups) == Directives(groups[..g]) + DirectivesIn(groups[g][..l]) + rest;
  }

  // ---------------------------------------------------------------------------
  // Removing entries by index (the backwards loops of template.go:222-236,
  // 249-252)

  /** The elements of `s` whose index is not in `drop`, in order. */
  function Keep<T>(s: seq<T>, drop: set<nat>): seq<T> {
    if s == [] then []
    else Keep(s[..|s| - 1], drop) + (if |s| - 1 in drop then [] else [s[|s| - 1]])
  }

  predicate Ascending(xs: seq<nat>) {
    forall i, j :: 0 <= i < j < |xs| ==> xs[i] < xs[j]
  }

  function Elems(xs: seq<nat>): set<nat> {
    set i | 0 <= i < |xs| :: xs[i]
  }

  lemma ElemsAppend(xs: seq<nat>, x: nat)
    ensures Elems(xs + [x]) == Elems(xs) + {x}
  {
    assert (xs + [x])[|xs|] == x;
    forall y | y in Elems(xs) ensures y in Elems(xs + [x]) {
      var i :| 0 <= i < |xs| && xs[i] == y;
      assert (xs + [x])[i] == y;
    }
  }

  /** Nothing is dropped below `p`: the first `p` elements are kept as they are. */
  lemma {:induction false} KeepBelow<T>(s: seq<T>, drop: set<nat>, p: nat)
    requires p <= |s| && forall d :: d in drop ==> d >= p
    ensures |Keep(s, drop)| >= p && Keep(s, drop)[..p] == s[..p]
    decreases |s|
  {
    if |s| > p {
      KeepBelow(s[..|s| - 1], drop, p);
      assert s[..|s| - 1][..p] == s[..p];
    } else if s != [] {
      KeepNone(s[..|s| - 1], drop);
      assert |s| - 1 !in drop;
      assert s[..|s| - 1] + [s[|s| - 1]] == s;
    }
  }

  lemma {:induction false} KeepNone<T>(s: seq<T>, drop: set<nat>)
    requires forall d :: d in drop ==> d >= |s|
    ensures Keep(s, drop) == s
    decreases |s|
  {
    if s != [] {
      KeepNone(s[..|s| - 1], drop);
      assert s[..|s| - 1] + [s[|s| - 1]] == s;
    }
  }

  /** Dropping one more index `p`, below all the others, removes exactly the
      element at `p` of what was kept. */
  lemma {:induction false} KeepOneMore<T>(s: seq<T>, drop: set<nat>, p: nat)
    requires p < |s| && forall d :: d in drop ==> d > p
    ensures |Keep(s, drop)| > p
    ensures Keep(s, drop + {p}) == Keep(s, drop)[..p] + Keep(s, drop)[p + 1..]
    decreases |s|
  {
    KeepBelow(s, drop, p + 1);
    if |s| - 1 == p {
      var init := s[..p];
      KeepNone(init, drop);
      KeepNone(init, drop + {p});
    } else {
      var init := s[..|s| - 1];
      KeepOneMore(init, drop, p);
      KeepBelow(init, drop, p + 1);
    }
  }

  /** Dropping an index past the end changes nothing. */
  lemma {:induction false} KeepBeyond<T>(s: seq<T>, drop: set<nat>, p: nat)
    requires p >= |s|
    ensures Keep(s, drop + {p}) == Keep(s, drop)
    decreases |s|
  {
    if s != [] {
      KeepBeyond(s[..|s| - 1], drop, p);
    }
  }

  /** `s = append(s[:p], s[p+1:]...)` for every `p` of the ascending list
      `drop`, from the last to the first. */
  method RemoveIndices<T>(s: seq<T>, drop: seq<nat>) returns (r: seq<T>)
    requires Ascending(drop) && forall i :: 0 <= i < |drop| ==> drop[i] < |s|
    ensures r == Keep(s, Elems(drop))
  {
    r := s;
    var i := |drop|;
    KeepNone(s, {});
    assert Elems(drop[i..]) == {};
    while i > 0
      invariant 0 <= i <= |drop|
      invariant r == Keep(s, Elems(drop[i..]))
    {
      i := i - 1;
      var p := drop[i];
      assert Elems(drop[i..]) == Elems(drop[i + 1..]) + {p};
      KeepOneMore(s, Elems(drop[i + 1..]), p);
      r := r[..p] + r[p + 1..];
    }
    assert drop[0..] == drop;
  }

  /** The same removal on the `Values` of a spec, with the slice expression
      guarded: an index past the end of the values removes nothing. */
  method RemoveValues(values: seq<Node>, drop: seq<nat>) returns (r: seq<Node>)
    requires Ascending(drop)
    ensures r == Keep(values, Elems(drop))
  {
    r := values;
    var i := |drop|;
    KeepNone(values, {});
    assert Elems(drop[i..]) == {};
    while i > 0
      invariant 0 <= i <= |drop|
      invariant r == Keep(values, Elems(drop[i..]))
    {
      i := i - 1;
      var p := drop[i];
      assert Elems(drop[i..]) == Elems(drop[i + 1..]) + {p};
      if p < |values| {
        KeepOneMore(values, Elems(drop[i + 1..]), p);
        r := r[..p] + r[p + 1..];
      } else {
        KeepBeyond(values, Elems(drop[i + 1..]), p);
      }
    }
    assert drop[0..] == drop;
  }

  /** The removal from `Values` as template.go:225 writes it: the slice
      expression `v.Values[p+1:]` panics when `p` is not an index of the
      values. */
  function RemoveValuesAsWritten(values: seq<Node>, drop: seq<nat>): Result<seq<Node>> {
    if drop == [] then Ok(values)
    else
      var p := drop[|drop| - 1];
      if p + 1 > |values| then Err(SliceBoundsPanic)
      else RemoveValuesAsWritten(values[..p] + values[p + 1..], drop[..|drop| - 1])
  }

  /** A stub `var A T` has no values, so removing it panics. */
  lemma ValuelessStubPanics()
    ensures RemoveValuesAsWritten([], [0]) == Err(SliceBoundsPanic)
  {
  }

  /** Where every index is in range, the code as written and the guarded
      removal agree. */
  lemma {:induction false} RemoveValuesAsWrittenInRange(values: seq<Node>, drop: seq<nat>)
    requires Ascending(drop) && forall i :: 0 <= i < |drop| ==> drop[i] < |values|
    ensures RemoveValuesAsWritten(values, drop) == Ok(Keep(values, Elems(drop)))
    decreases |drop|
  {
    if drop == [] {
      KeepNone(values, {});
      assert Elems(drop) == {};
    } else {
      var p := drop[|drop| - 1];
      var init := drop[..|drop| - 1];
      var shorter := values[..p] + values[p + 1..];
      RemoveValuesAsWrittenInRange(shorter, init);
      assert Elems(drop) == Elems(init) + {p};
      KeepTop(values, Elems(init), p);
    }
  }

  /** Dropping an index `p` above all the others is removing it first. */
  lemma {:induction false} KeepTop<T>(s: seq<T>, drop: set<nat>, p: nat)
    requires p < |s| && forall d :: d in drop ==> d < p
    ensures Keep(s, drop + {p}) == Keep(s[..p] + s[p + 1..], drop)
    decreases |s|
  {
    if |s| - 1 == p {
      assert s[..p] + s[p + 1..] == s[..p];
      KeepBeyond(s[..p], drop, p);
    } else {
      var init := s[..|s| - 1];
      KeepTop(init, drop, p);
      var t := s[..p] + s[p + 1..];
      assert t[..|t| - 1] == init[..p] + init[p + 1..];
      assert t[|t| - 1] == s[|s| - 1];
    }
  }

  // ---------------------------------------------------------------------------
  // Declarations: the part of go/ast the pruning loop looks at

  /** A name bound by a declaration: an `*ast.Ident`. */
  type Name = n: Node | n.Ident? witness Ident("_", NoPos, Nil)

  /** An `*ast.ValueSpec`: `Names [Type] = Values`. */
  datatype ValueSpec = ValueSpec(names: seq<Name>, typ: Option<Node>, values: seq<Node>)

  /** An `*ast.TypeSpec`: `Name Type`. */
  datatype TypeSpec = TypeSpec(tname: Name, typ: Node)

  /** A top-level declaration of a file. */
  datatype Decl =
    | ValueDecl(isConst: bool, specs: seq<ValueSpec>)  // GenDecl with token.CONST or token.VAR
    | TypeDecl(tspecs: seq<TypeSpec>)                  // GenDecl with token.TYPE
    | ImportDecl(imports: seq<Node>)                   // GenDecl with token.IMPORT
    | OtherGenDecl(tok: string, body: Node)            // GenDecl with any other token
    | FuncDecl(recv: Option<Node>, fname: Name, body: Node)
    | BadDecl(text: string)                            // any other ast.Decl

  function NamesOf(names: seq<Name>): (r: seq<string>)
    ensures |r| == |names|
  {
    seq(|names|, i requires 0 <= i < |names| => names[i].name)
  }

  /** The names the value specs bind, spec by spec. */
  function SpecNames(specs: seq<ValueSpec>): seq<string> {
    if specs == [] then []
    else SpecNames(specs[..|specs| - 1]) + NamesOf(specs[|specs| - 1].names)
  }

  function TypeNames(tspecs: seq<TypeSpec>): (r: seq<string>)
    ensures |r| == |tspecs|
  {
    seq(|tspecs|, i requires 0 <= i < |tspecs| => tspecs[i].tname.name)
  }

  /** The names template.go records for one declaration: every name a
      `var`, `const` or `type` declaration binds, and the name of a function
      without a receiver. Methods and imports record nothing. */
  function DeclNames(d: Decl): seq<string> {
    match d
    case ValueDecl(_, specs) => SpecNames(specs)
    case TypeDecl(tspecs) => TypeNames(tspecs)
    case FuncDecl(recv, fname, _) => if recv.None? then [fname.name] else []
    case _ => []
  }

  /** `f` of each element, concatenated in order. */
  function Concat<T>(xs: seq<T>, f: T -> seq<string>): seq<string> {
    if xs == [] then []
    else Concat(xs[..|xs| - 1], f) + f(xs[|xs| - 1])
  }

  /** The top-level names of a list of declarations, in order. */
  function TopNames(decls: seq<Decl>): seq<string> {
    Concat(decls, DeclNames)
  }

  /** The indices of the names that are formal parameters. */
  function ArgIndices(names: seq<Name>, formals: seq<string>): set<nat> {
    set j | 0 <= j < |names| && names[j].name in formals
  }

  /** A value spec without its formal-parameter names, each together with
      the value at the same index. */
  function PruneSpec(v: ValueSpec, formals: seq<string>): ValueSpec {
    var drop := ArgIndices(v.names, formals);
    ValueSpec(Keep(v.names, drop), v.typ, Keep(v.values, drop))
  }

  function EmptyIndices(specs: seq<ValueSpec>): set<nat> {
    set i | 0 <= i < |specs| && specs[i].names == []
  }

  /** The indices below `n` of the specs left without names. */
  ghost function EmptyBelow(specs: seq<ValueSpec>, n: nat): set<nat>
    requires n <= |specs|
  {
    set k | 0 <= k < n && specs[k].names == []
  }

  lemma EmptyBelowStep(specs: seq<ValueSpec>, n: nat)
    requires n < |specs|
    ensures EmptyBelow(specs, n + 1) == EmptyBelow(specs, n) + (if specs[n].names == [] then {n} else {})
  {
  }

  function TypeArgIndices(tspecs: seq<TypeSpec>, formals: seq<string>): set<nat> {
    set i | 0 <= i < |tspecs| && tspecs[i].tname.name in formals
  }

  /** The indices below `i` of the type specs that declare a formal parameter. */
  ghost function TypeArgIndicesBelow(tspecs: seq<TypeSpec>, formals: seq<string>, i: nat): set<nat>
    requires i <= |tspecs|
  {
    set k | 0 <= k < i && tspecs[k].tname.name in formals
  }

  lemma TypeArgIndicesStep(tspecs: seq<TypeSpec>, formals: seq<string>, i: nat)
    requires i < |tspecs|
    ensures TypeArgIndicesBelow(tspecs, formals, i + 1) ==
            TypeArgIndicesBelow(tspecs, formals, i) + (if tspecs[i].tname.name in formals then {i} else {})
    ensures TypeArgIndicesBelow(tspecs, formals, |tspecs|) == TypeArgIndices(tspecs, formals)
  {
  }

  /** What is left of one declaration once the stubs for the formal
      parameters are gone: None when the whole declaration goes. */
  function PruneDecl(d: Decl, formals: seq<string>): Option<Decl>
    requires !d.BadDecl?
  {
    match d
    case ValueDecl(isConst, specs) =>
      var pruned := seq(|specs|, i requires 0 <= i < |specs| => PruneSpec(specs[i], formals));
      var kept := Keep(pruned, EmptyIndices(pruned));
      if kept == [] then None else Some(ValueDecl(isConst, kept))
    case TypeDecl(tspecs) =>
      var kept := Keep(tspecs, TypeArgIndices(tspecs, formals));
      if kept == [] then None else Some(TypeDecl(kept))
    case FuncDecl(recv, fname, _) =>
      if recv.None? && fname.name in formals then None else Some(d)
    case ImportDecl(_) => Some(d)
    case OtherGenDecl(_, _) => Some(d)
  }

  function OptSeq<T>(o: Option<T>): seq<T> {
    if o.Some? then [o.value] else []
  }

  /** The declarations that remain and the names to mangle, or the fatal
      error for the first declaration of an unknown kind. */
  function PruneAll(decls: seq<Decl>, formals: seq<string>): Result<(seq<Decl>, seq<string>)> {
    if decls == [] then Ok(([], []))
    else
      var init :- PruneAll(decls[..|decls| - 1], formals);
      var d := decls[|decls| - 1];
      if d.BadDecl? then Err(UnknownDecl)
      else Ok((init.0 + OptSeq(PruneDecl(d, formals)), init.1 + DeclNames(d)))
  }

  /** `ast.NewIdent(name)`: an identifier without position or object. */
  function NewIdent(name: string): Node {
    Ident(name, NoPos, Nil)
  }

  /** The outcome of the lookup is settled by the first directive, or by
      the first two. */
  lemma DefinitionOpens(groups: seq<seq<CommentLine>>, supplied: nat, seen: seq<Call>)
    requires |seen| >= 1 && |seen| <= |Directives(groups)| && Directives(groups)[..|seen|] == seen
    ensures seen[0].Unparsable? ==> Definition(groups, supplied) == Err(BadDirective)
    ensures seen[0].Call? && !AllIdents(seen[0].args) ==> Definition(groups, supplied) == Err(NotIdentifier)
    ensures seen[0].Call? && AllIdents(seen[0].args) && |seen| >= 2 ==>
              Definition(groups, supplied) == Err(MultipleDefinitions)
  {
    assert Directives(groups)[0] == seen[0];
  }

  /** An unknown declaration ends the walk whatever follows it. */
  lemma {:induction false} PruneAllStopsAt(decls: seq<Decl>, i: nat, formals: seq<string>)
    requires i < |decls| && decls[i].BadDecl? && PruneAll(decls[..i], formals).Ok?
    ensures PruneAll(decls, formals) == Err(UnknownDecl)
    decreases |decls|
  {
    if i < |decls| - 1 {
      var init := decls[..|decls| - 1];
      assert init[..i] == decls[..i];
      PruneAllStopsAt(init, i, formals);
    } else {
      assert decls[..|decls| - 1] == decls[..i];
    }
  }

  // ---------------------------------------------------------------------------
  // What pruning keeps

  /** The names of `xs` that are not formal parameters, in order. */
  function NonFormals(xs: seq<string>, formals: seq<string>): seq<string> {
    if xs == [] then []
    else NonFormals(xs[..|xs| - 1], formals) + (if xs[|xs| - 1] in formals then [] else [xs[|xs| - 1]])
  }

  lemma {:induction false} NonFormalsAppend(a: seq<string>, b: seq<string>, formals: seq<string>)
    ensures NonFormals(a + b, formals) == NonFormals(a, formals) + NonFormals(b, formals)
    decreases |b|
  {
    if b == [] {
      assert a + b == a;
    } else {
      assert (a + b)[..|a + b| - 1] == a + b[..|b| - 1];
      NonFormalsAppend(a, b[..|b| - 1], formals);
    }
  }

  lemma {:induction false} NamesOfKeep(names: seq<Name>, drop: set<nat>, formals: seq<string>)
    requires forall i :: 0 <= i < |names| ==> (i in drop <==> names[i].name in formals)
    ensures NamesOf(Keep(names, drop)) == NonFormals(NamesOf(names), formals)
    decreases |names|
  {
    if names != [] {
      var init := names[..|names| - 1];
      NamesOfKeep(init, drop, formals);
      assert NamesOf(names)[..|names| - 1] == NamesOf(init);
      var tail := if |names| - 1 in drop then [] else [names[|names| - 1]];
      assert NamesOf(Keep(init, drop) + tail) == NamesOf(Keep(init, drop)) + NamesOf(tail);
    }
  }

  lemma {:induction false} TypeNamesKeep(tspecs: seq<TypeSpec>, drop: set<nat>, formals: seq<string>)
    requires forall i :: 0 <= i < |tspecs| ==> (i in drop <==> tspecs[i].tname.name in formals)
    ensures TypeNames(Keep(tspecs, drop)) == NonFormals(TypeNames(tspecs), formals)
    decreases |tspecs|
  {
    if tspecs != [] {
      var init := tspecs[..|tspecs| - 1];
      TypeNamesKeep(init, drop, formals);
      assert TypeNames(tspecs)[..|tspecs| - 1] == TypeNames(init);
      var tail := if |tspecs| - 1 in drop then [] else [tspecs[|tspecs| - 1]];
      assert TypeNames(Keep(init, drop) + tail) == TypeNames(Keep(init, drop)) + TypeNames(tail);
    }
  }

  lemma {:induction false} SpecNamesAppend(a: seq<ValueSpec>, b: seq<ValueSpec>)
    ensures SpecNames(a + b) == SpecNames(a) + SpecNames(b)
    decreases |b|
  {
    if b == [] {
      assert a + b == a;
    } else {
      assert (a + b)[..|a + b| - 1] == a + b[..|b| - 1];
      SpecNamesAppend(a, b[..|b| - 1]);
    }
  }

  /** Dropping specs without names drops no name. */
  lemma {:induction false} SpecNamesKeepEmpty(specs: seq<ValueSpec>, drop: set<nat>)
    requires forall i :: 0 <= i < |specs| ==> (i in drop <==> specs[i].names == [])
    ensures SpecNames(Keep(specs, drop)) == SpecNames(specs)
    decreases |specs|
  {
    if specs != [] {
      var init := specs[..|specs| - 1];
      SpecNamesKeepEmpty(init, drop);
      var tail := if |specs| - 1 in drop then [] else [specs[|specs| - 1]];
      SpecNamesAppend(Keep(init, drop), tail);
      assert SpecNames([specs[|specs| - 1]]) == NamesOf(specs[|specs| - 1].names) by {
        assert [specs[|specs| - 1]][..0] == [];
      }
    }
  }

  /** The specs, each without its formal-parameter names, bind the names of
      the original specs that are not formal parameters. */
  lemma {:induction false} SpecNamesPruned(specs: seq<ValueSpec>, formals: seq<string>)
    ensures SpecNames(seq(|specs|, i requires 0 <= i < |specs| => PruneSpec(specs[i], formals)))
         == NonFormals(SpecNames(specs), formals)
    decreases |specs|
  {
    var pruned := seq(|specs|, i requires 0 <= i < |specs| => PruneSpec(specs[i], formals));
    if specs != [] {
      var init := specs[..|specs| - 1];
      var last := specs[|specs| - 1];
      SpecNamesPruned(init, formals);
      assert pruned[..|specs| - 1] == seq(|init|, i requires 0 <= i < |init| => PruneSpec(init[i], formals));
      NamesOfKeep(last.names, ArgIndices(last.names, formals), formals);
      NonFormalsAppend(SpecNames(init), NamesOf(last.names), formals);
    }
  }

  lemma {:induction false} ConcatAppend<T>(a: seq<T>, b: seq<T>, f: T -> seq<string>)
    ensures Concat(a + b, f) == Concat(a, f) + Concat(b, f)
    decreases |b|
  {
    if b == [] {
      assert a + b == a;
    } else {
      assert (a + b)[..|a + b| - 1] == a + b[..|b| - 1];
      ConcatAppend(a, b[..|b| - 1], f);
    }
  }

  /** What is left of one declaration binds exactly its names that are not
      formal parameters. */
  lemma PruneDeclNames(d: Decl, formals: seq<string>)
    requires !d.BadDecl?
    ensures TopNames(OptSeq(PruneDecl(d, formals))) == NonFormals(DeclNames(d), formals)
  {
    var kept := OptSeq(PruneDecl(d, formals));
    if kept != [] {
      assert kept[..0] == [];
      assert Concat(kept, DeclNames) == Concat([], DeclNames) + DeclNames(kept[0]);
    }
    match d
    case ValueDecl(isConst, specs) =>
      var pruned := seq(|specs|, i requires 0 <= i < |specs| => PruneSpec(specs[i], formals));
      SpecNamesPruned(specs, formals);
      SpecNamesKeepEmpty(pruned, EmptyIndices(pruned));
    case TypeDecl(tspecs) =>
      TypeNamesKeep(tspecs, TypeArgIndices(tspecs, formals), formals);
    case FuncDecl(recv, fname, _) =>
      assert NonFormals([fname.name], formals) == (if fname.name in formals then [] else [fname.name]) by {
        assert [fname.name][..0] == [];
      }
    case ImportDecl(_) =>
    case OtherGenDecl(_, _) =>
  }

  /** Pruning records every top-level name and removes exactly the
      declarations of the formal parameters: the names the remaining
      declarations bind are the recorded names that are not formal
      parameters, in their original order. */
  lemma {:induction false} PruneRemovesExactlyFormals(decls: seq<Decl>, formals: seq<string>)
    requires PruneAll(decls, formals).Ok?
    ensures PruneAll(decls, formals).value.1 == TopNames(decls)
    ensures TopNames(PruneAll(decls, formals).value.0) == NonFormals(TopNames(decls), formals)
    decreases |decls|
  {
    if decls != [] {
      var init := decls[..|decls| - 1];
      var d := decls[|decls| - 1];
      PruneRemovesExactlyFormals(init, formals);
      var kept := PruneAll(init, formals).value.0;
      PruneDeclNames(d, formals);
      ConcatAppend(kept, OptSeq(PruneDecl(d, formals)), DeclNames);
      NonFormalsAppend(TopNames(init), DeclNames(d), formals);
    }
  }

  /** Methods, imports and declarations of other kinds pass through
      untouched and in order. */
  predicate Untouched(d: Decl) {
    d.ImportDecl? || d.OtherGenDecl? || (d.FuncDecl? && d.recv.Some?)
  }

  function UntouchedOf(decls: seq<Decl>): seq<Decl> {
    if decls == [] then []
    else UntouchedOf(decls[..|decls| - 1]) + (if Untouched(decls[|decls| - 1]) then [decls[|decls| - 1]] else [])
  }

  lemma {:induction false} UntouchedAppend(a: seq<Decl>, b: seq<Decl>)
    ensures UntouchedOf(a + b) == UntouchedOf(a) + UntouchedOf(b)
    decreases |b|
  {
    if b == [] {
      assert a + b == a;
    } else {
      assert (a + b)[..|a + b| - 1] == a + b[..|b| - 1];
      UntouchedAppend(a, b[..|b| - 1]);
    }
  }

  lemma {:induction false} PruneKeepsUntouched(decls: seq<Decl>, formals: seq<string>)
    requires PruneAll(decls, formals).Ok?
    ensures UntouchedOf(PruneAll(decls, formals).value.0) == UntouchedOf(decls)
    decreases |decls|
  {
    if decls != [] {
      var init := decls[..|decls| - 1];
      var d := decls[|decls| - 1];
      PruneKeepsUntouched(init, formals);
      var kept := OptSeq(PruneDecl(d, formals));
      UntouchedAppend(PruneAll(init, formals).value.0, kept);
      if kept != [] {
        assert kept[..0] == [];
        assert Untouched(kept[0]) <==> Untouched(d);
      }
    }
  }

  /** A spec with one value per name keeps one value per name. */
  lemma PruneSpecAligned(v: ValueSpec, formals: seq<string>)
    requires |v.values| == |v.names|
    ensures |PruneSpec(v, formals).values| == |PruneSpec(v, formals).names|
    ensures forall x :: x in NamesOf(PruneSpec(v, formals).names) ==> x !in formals
  {
    var drop := ArgIndices(v.names, formals);
    KeepSameLength(v.names, v.values, drop);
    NamesOfKeep(v.names, drop, formals);
    NonFormalsExcludes(NamesOf(v.names), formals);
  }

  lemma {:induction false} KeepSameLength<T, U>(s: seq<T>, t: seq<U>, drop: set<nat>)
    requires |s| == |t|
    ensures |Keep(s, drop)| == |Keep(t, drop)|
    decreases |s|
  {
    if s != [] {
      KeepSameLength(s[..|s| - 1], t[..|t| - 1], drop);
    }
  }

  lemma {:induction false} NonFormalsExcludes(xs: seq<string>, formals: seq<string>)
    ensures forall x :: x in NonFormals(xs, formals) <==> x in xs && x !in formals
    decreases |xs|
  {
    if xs != [] {
      NonFormalsExcludes(xs[..|xs| - 1], formals);
      assert xs == xs[..|xs| - 1] + [xs[|xs| - 1]];
    }
  }

  // ---------------------------------------------------------------------------
  // The name mappings (template.go:281-298)

  /** `m` with each formal parameter mapped to the actual argument at the
      same index, front to back, so a repeated formal gets its last actual. */
  function Bind(m: map<string, Node>, formals: seq<string>, actuals: seq<Node>): map<string, Node>
    requires |formals| == |actuals|
  {
    if formals == [] then m
    else
      var n := |formals| - 1;
      Bind(m, formals[..n], actuals[..n])[formals[n] := actuals[n]]
  }

  /** The loop over the recorded names: the template's own name is always
      (re)mapped to its instance name, any other name only when it has no
      mapping yet. */
  function Mangle(m: map<string, Node>, names: seq<string>, templateName: string,
                  instName: Identifier, newIsPublic: bool): map<string, Node>
  {
    if names == [] then m
    else
      var init := Mangle(m, names[..|names| - 1], templateName, instName, newIsPublic);
      var x := names[|names| - 1];
      if x == templateName || x !in init
      then init[x := NewIdent(MappedName(x, templateName, instName, newIsPublic))]
      else init
  }

  /** One more recorded name: `Mangle` of a prefix one longer. */
  lemma MangleNext(m: map<string, Node>, names: seq<string>, j: nat, templateName: string,
                   instName: Identifier, newIsPublic: bool)
    requires j < |names|
    ensures var init := Mangle(m, names[..j], templateName, instName, newIsPublic);
            var x := names[j];
            Mangle(m, names[..j + 1], templateName, instName, newIsPublic) ==
              if x == templateName || x !in init
              then init[x := NewIdent(MappedName(x, templateName, instName, newIsPublic))]
              else init
  {
    assert names[..j + 1][..j] == names[..j];
  }

  lemma BindMeaning(m: map<string, Node>, formals: seq<string>, actuals: seq<Node>)
    requires |formals| == |actuals|
    ensures forall x :: x in Bind(m, formals, actuals) <==> x in m || x in formals
    ensures forall x :: x in m && x !in formals ==> Bind(m, formals, actuals)[x] == m[x]
    ensures forall i :: 0 <= i < |formals| && formals[i] !in formals[i + 1..] ==>
              Bind(m, formals, actuals)[formals[i]] == actuals[i]
  {
    BindKeys(m, formals, actuals);
    BindFormal(m, formals, actuals);
  }

  /** The keys of `Bind`, and the entries it leaves alone. */
  lemma {:induction false} BindKeys(m: map<string, Node>, formals: seq<string>, actuals: seq<Node>)
    requires |formals| == |actuals|
    ensures forall x :: x in Bind(m, formals, actuals) <==> x in m || x in formals
    ensures forall x :: x in m && x !in formals ==> Bind(m, formals, actuals)[x] == m[x]
  {
    if formals != [] {
      var n := |formals| - 1;
      BindKeys(m, formals[..n], actuals[..n]);
      assert formals == formals[..n] + [formals[n]];
    }
  }

  /** A formal that does not come again is bound to its own actual. */
  lemma BindFormal(m: map<string, Node>, formals: seq<string>, actuals: seq<Node>)
    requires |formals| == |actuals|
    ensures forall i :: 0 <= i < |formals| && formals[i] !in formals[i + 1..] ==>
              formals[i] in Bind(m, formals, actuals) && Bind(m, formals, actuals)[formals[i]] == actuals[i]
  {
    forall i | 0 <= i < |formals| && formals[i] !in formals[i + 1..]
      ensures formals[i] in Bind(m, formals, actuals) && Bind(m, formals, actuals)[formals[i]] == actuals[i]
    {
      BindAt(m, formals, actuals, i);
    }
  }

  lemma {:induction false} BindAt(m: map<string, Node>, formals: seq<string>, actuals: seq<Node>, i: int)
    requires |formals| == |actuals| && 0 <= i < |formals| && formals[i] !in formals[i + 1..]
    ensures formals[i] in Bind(m, formals, actuals) && Bind(m, formals, actuals)[formals[i]] == actuals[i]
    decreases |formals|
  {
    var n := |formals| - 1;
    if i < n {
      var fs, acts := formals[..n], actuals[..n];
      assert fs[i + 1..] == formals[i + 1..n];
      assert formals[n] in formals[i + 1..];
      BindAt(m, fs, acts, i);
    }
  }

  lemma {:induction false} MangleMeaning(m: map<string, Node>, names: seq<string>, templateName: string,
                                         instName: Identifier, newIsPublic: bool)
    ensures var r := Mangle(m, names, templateName, instName, newIsPublic);
            forall x :: x in r <==> x in m || x in names
    ensures var r := Mangle(m, names, templateName, instName, newIsPublic);
            forall x :: x in names && (x == templateName || x !in m) ==>
              r[x] == NewIdent(MappedName(x, templateName, instName, newIsPublic))
    ensures var r := Mangle(m, names, templateName, instName, newIsPublic);
            forall x :: x in m && !(x == templateName && x in names) ==> r[x] == m[x]
  {
    if names != [] {
      var n := |names| - 1;
      MangleMeaning(m, names[..n], templateName, instName, newIsPublic);
      assert names == names[..n] + [names[n]];
    }
  }

  /** What the mappings are once the loops of template.go:281-298 have run on
      an empty map: every formal parameter is mapped to its actual argument
      (unless it is also the template's declared name), every other recorded
      name to its instance name, and nothing else is mapped. */
  lemma MappingsMeaning(formals: seq<string>, actuals: seq<Node>, names: seq<string>,
                        templateName: string, instName: Identifier, newIsPublic: bool)
    requires |formals| == |actuals|
    ensures var r := Mangle(Bind(map[], formals, actuals), names, templateName, instName, newIsPublic);
            (forall x :: x in r <==> x in formals || x in names) &&
            (forall i :: 0 <= i < |formals| && formals[i] !in formals[i + 1..] &&
                           !(formals[i] == templateName && formals[i] in names) ==>
                           r[formals[i]] == actuals[i]) &&
            (forall x :: x in names && x !in formals ==>
                         r[x] == NewIdent(MappedName(x, templateName, instName, newIsPublic))) &&
            (templateName in names ==>
                         r[templateName] == NewIdent(MappedName(templateName, templateName, instName, newIsPublic)))
  {
    var b := Bind(map[], formals, actuals);
    BindMeaning(map[], formals, actuals);
    MangleMeaning(b, names, templateName, instName, newIsPublic);
    forall i | 0 <= i < |formals|
      ensures formals[i] in b
    {
    }
  }

  // ---------------------------------------------------------------------------
  // The rewrite loop and the output (template.go:301-310)

  /** A declaration as the rewriter sees it: the go/ast structs, with each
      `ast.Spec` and `ast.Expr` held in an interface slot. */
  function DeclNode(d: Decl): Node {
    match d
    case ValueDecl(isConst, specs) =>
      Struct([Other(if isConst then "const" else "var"),
              Seq(seq(|specs|, i requires 0 <= i < |specs| => Iface(Some(SpecNode(specs[i])))))])
    case TypeDecl(tspecs) =>
      Struct([Other("type"),
              Seq(seq(|tspecs|, i requires 0 <= i < |tspecs| =>
                        Iface(Some(Struct([tspecs[i].tname, Iface(Some(tspecs[i].typ))])))))])
    case ImportDecl(imports) => Struct([Other("import"), Seq(imports)])
    case OtherGenDecl(tok, body) => Struct([Other(tok), body])
    case FuncDecl(recv, fname, body) =>
      Struct([if recv.Some? then recv.value else Other("nil"), fname, body])
    case BadDecl(text) => Other(text)
  }

  function SpecNode(v: ValueSpec): Node {
    Struct([Seq(v.names), Iface(v.typ),
            Seq(seq(|v.values|, i requires 0 <= i < |v.values| => Iface(Some(v.values[i]))))])
  }

  /** An `*ast.File`: its package name, then its declarations. */
  function FileNode(pkg: Name, decls: seq<Decl>): (r: Node)
    ensures r.Struct? && |r.fields| == 2 && r.fields[0] == pkg
  {
    Struct([pkg, Seq(seq(|decls|, i requires 0 <= i < |decls| => Iface(Some(DeclNode(decls[i])))))])
  }

  /** `order` lists each key of `m` exactly once. */
  predicate IsListing(order: seq<string>, m: map<string, Node>) {
    (forall i, j :: 0 <= i < j < |order| ==> order[i] != order[j]) &&
    (forall x :: x in m ==> x in order) &&
    (forall i :: 0 <= i < |order| ==> order[i] in m)
  }

  /** `rewriteFile` for each mapped name in turn, in the order given; the
      first fatal error ends the run. */
  function RewriteAll(file: Node, m: map<string, Node>, order: seq<string>): Result<Node>
    requires forall i :: 0 <= i < |order| ==> order[i] in m
  {
    if order == [] then Ok(file)
    else
      var n := |order| - 1;
      var init :- RewriteAll(file, m, order[..n]);
      Apply(init, order[n], m[order[n]])
  }

  /** `f.Name.Name = pkg`: the file's package name is changed. */
  function Renamed(file: Node, pkg: string): (r: Node)
    ensures file.Struct? && |file.fields| > 0 && file.fields[0].Ident? ==>
              r.Struct? && |r.fields| == |file.fields| && r.fields[0].Ident? &&
              r.fields[0].name == pkg && r.fields[0].pos == file.fields[0].pos &&
              r.fields[1..] == file.fields[1..]
  {
    if file.Struct? && |file.fields| > 0 && file.fields[0].Ident? then
      var p := file.fields[0];
      Struct(file.fields[0 := Ident(pkg, p.pos, p.obj)])
    else file
  }

  /** The name of the file the instance is written to. */
  function OutputName(instName: Identifier): (r: string)
    ensures |r| == |instName| + 14 && r[11..11 + |instName|] == instName
  {
    "gotemplate_" + instName + ".go"
  }

  /** The rewritten file with its package renamed, and the output file name. */
  function Finished(rewritten: Result<Node>, pkg: string, instName: Identifier): Result<(Node, string)> {
    var f :- rewritten;
    Ok((Renamed(f, pkg), OutputName(instName)))
  }

  /** A failure after the first `k` mapped names is the failure of the run. */
  lemma {:induction false} RewriteAllPrefixErr(file: Node, m: map<string, Node>, order: seq<string>, k: nat)
    requires forall i :: 0 <= i < |order| ==> order[i] in m
    requires k <= |order| && RewriteAll(file, m, order[..k]).Err?
    ensures RewriteAll(file, m, order) == RewriteAll(file, m, order[..k])
    decreases |order|
  {
    if k < |order| {
      var init := order[..|order| - 1];
      assert init[..k] == order[..k];
      RewriteAllPrefixErr(file, m, init, k);
    } else {
      assert order[..k] == order;
    }
  }

  /** Each rewriting keeps a file a file: a struct whose package name is an
      identifier. */
  lemma {:induction false} RewriteAllShape(file: Node, m: map<string, Node>, order: seq<string>)
    requires forall i :: 0 <= i < |order| ==> order[i] in m
    requires file.Struct? && |file.fields| > 0 && file.fields[0].Ident?
    ensures RewriteAll(file, m, order).Ok? ==>
              var r := RewriteAll(file, m, order).value;
              r.Struct? && |r.fields| == |file.fields| && r.fields[0].Ident?
  {
    if order != [] {
      var n := |order| - 1;
      RewriteAllShape(file, m, order[..n]);
      var init := RewriteAll(file, m, order[..n]);
      if init.Ok? {
        ApplyEachKinds(init.value.fields, order[n], m[order[n]]);
      }
    }
  }

  /** When no replacement mentions a mapped name, the instance mentions none
      of the names rewritten, still mentions every other name of the
      template, mentions nothing that neither the template nor a replacement
      did, and keeps no back-link. */
  lemma {:induction false} RewriteAllRemovesMapped(file: Node, m: map<string, Node>, order: seq<string>)
    requires forall i :: 0 <= i < |order| ==> order[i] in m
    requires file.Struct? && WellFormed(file)
    requires forall k :: k in m ==> WellFormed(m[k]) && !m[k].Iface?
    requires forall k, k' :: k in m && k' in m ==> !Mentions(m[k], k')
    requires RewriteAll(file, m, order).Ok?
    ensures var r := RewriteAll(file, m, order).value;
            r.Struct? && WellFormed(r) && (order != [] ==> NoLinks(r))
    ensures var r := RewriteAll(file, m, order).value;
            forall k :: k in order ==> !Mentions(r, k)
    ensures var r := RewriteAll(file, m, order).value;
            forall x :: x !in order && Mentions(file, x) ==> Mentions(r, x)
    ensures var r := RewriteAll(file, m, order).value;
            forall x :: Mentions(r, x) ==>
              (x !in order && Mentions(file, x)) || exists k :: k in order && Mentions(m[k], x)
  {
    if order != [] {
      var n := |order| - 1;
      var prefix := order[..n];
      var last := order[n];
      var rl := m[last];
      assert order == prefix + [last];
      RewriteAllRemovesMapped(file, m, prefix);
      var init := RewriteAll(file, m, prefix).value;
      var r := RewriteAll(file, m, order).value;
      RewriteIsReplaced(init, last, rl);
      assert r == Replaced(init, last, rl);
      ReplacedWellFormed(init, last, rl);
      ReplacedNoLinks(init, last, rl);
      forall k | k in order
        ensures !Mentions(r, k)
      {
        ReplacedMentionsOnly(init, last, rl, k);
        ReplacedMentions(init, last, rl, k);
      }
      forall x | x !in order && Mentions(file, x)
        ensures Mentions(r, x)
      {
        ReplacedMentions(init, last, rl, x);
      }
      forall x | Mentions(r, x)
        ensures (x !in order && Mentions(file, x)) || exists k :: k in order && Mentions(m[k], x)
      {
        ReplacedMentionsOnly(init, last, rl, x);
        if Mentions(rl, x) {
          assert last in order;
        } else {
          assert x != last && Mentions(init, x);
          if x !in prefix && Mentions(file, x) {
          } else {
            var k :| k in prefix && Mentions(m[k], x);
            assert k in order;
          }
        }
      }
    }
  }

  /** The order in which `range` visits the keys of a Go map: any order. */
  method MapOrder(m: map<string, Node>) returns (order: seq<string>)
    ensures IsListing(order, m)
  {
    var keys := m.Keys;
    order := [];
    while keys != {}
      invariant forall x :: x in m <==> x in order || x in keys
      invariant forall x :: x in keys ==> x !in order
      invariant forall i, j :: 0 <= i < j < |order| ==> order[i] != order[j]
      decreases |keys|
    {
      var k :| k in keys;
      order := order + [k];
      keys := keys - {k};
    }
  }

  // ---------------------------------------------------------------------------
  // The template being instantiated

  class Template {
    const name: Identifier         // the instance name, `MySet` in `MySet(int)`
    const args: seq<Node>          // the actual arguments, `int`
    const newPackage: Identifier   // the package the instance is written into
    var newIsPublic: bool
    var templateName: string       // `Set` in `template type Set(A)`
    var templateArgs: seq<string>  // `A`
    var mappings: map<string, Node>

    /** `newTemplate`, once the instantiation argument has been parsed and
        the package name found. */
    constructor (name: Identifier, args: seq<Node>, newPackage: Identifier)
      ensures this.name == name && this.args == args && this.newPackage == newPackage
      ensures templateName == "" && templateArgs == [] && mappings == map[] && !newIsPublic
    {
      this.name := name;
      this.args := args;
      this.newPackage := newPackage;
      newIsPublic := false;
      templateName := "";
      templateArgs := [];
      mappings := map[];
    }

    /** `isTemplateArgument` */
    method IsTemplateArgument(x: string) returns (b: bool)
      ensures b <==> x in templateArgs
    {
      var i := 0;
      while i < |templateArgs|
        invariant 0 <= i <= |templateArgs|
        invariant x !in templateArgs[..i]
      {
        if templateArgs[i] == x {
          return true;
        }
        assert templateArgs[..i + 1] == templateArgs[..i] + [templateArgs[i]];
        i := i + 1;
      }
      assert templateArgs[..i] == templateArgs;
      return false;
    }

    /** `addMapping`: `x` is mapped to a new identifier with its instance name. */
    method AddMapping(x: string)
      modifies this`mappings
      ensures mappings == old(mappings)[x := NewIdent(MappedName(x, templateName, name, newIsPublic))]
    {
      var replacement := MappedName(x, templateName, name, newIsPublic);
      mappings := mappings[x := NewIdent(replacement)];
    }

    /** The fields after the directives `seen` have been processed without a
        fatal error. */
    ghost predicate AfterDirectives(seen: seq<Call>)
      reads this
    {
      |seen| <= 1 &&
      (seen == [] ==> templateName == "") &&
      (seen != [] ==> seen[0].Call? && AllIdents(seen[0].args) &&
                      templateName == seen[0].fn && templateArgs == IdentNames(seen[0].args))
    }

    /** `findTemplateDefinition`: the loop over comment groups, stopping at
        the first fatal error. */
    method FindTemplateDefinition(groups: seq<seq<CommentLine>>) returns (o: Outcome)
      modifies this`templateName, this`templateArgs
      ensures var d := Definition(groups, |args|);
              (o.Pass? <==> d.Ok?) &&
              (o.Fail? ==> o.error == d.error) &&
              (o.Pass? ==> templateName == d.value.0 && templateArgs == d.value.1)
    {
      templateName := "";
      templateArgs := [];
      var g := 0;
      while g < |groups|
        invariant 0 <= g <= |groups|
        invariant AfterDirectives(Directives(groups[..g]))
      {
        o := ScanGroup(groups, g);
        if o.Fail? {
          return o;
        }
        g := g + 1;
      }
      assert groups[..g] == groups;
      if templateName == "" {
        return Fail(NoDefinition);
      }
      if |templateArgs| != |args| {
        return Fail(WrongArity(|templateArgs|, |args|));
      }
      return Pass;
    }

    /** The body of the inner loop at a directive line (template.go:110-117). */
    method TakeDirective(groups: seq<seq<CommentLine>>, g: nat, l: nat) returns (o: Outcome)
      requires g < |groups| && l < |groups[g]| && groups[g][l].Directive?
      requires AfterDirectives(Directives(groups[..g]) + DirectivesIn(groups[g][..l]))
      modifies this`templateName, this`templateArgs
      ensures o.Pass? ==> AfterDirectives(Directives(groups[..g]) + DirectivesIn(groups[g][..l + 1]))
      ensures o.Fail? ==> Definition(groups, |args|) == Err(o.error)
    {
      assert groups[g][..l + 1][..l] == groups[g][..l];
      ghost var seen := Directives(groups[..g]) + DirectivesIn(groups[g][..l + 1]);
      ghost var rest := DirectivesSplit(groups, g, l + 1);
      DefinitionOpens(groups, |args|, seen);
      if templateName != "" {
        return Fail(MultipleDefinitions);
      }
      var call := groups[g][l].call;
      if call.Unparsable? {
        return Fail(BadDirective);
      }
      var formals := EnsureIdentifiers(call.args);
      if formals.Err? {
        return Fail(formals.error);
      }
      templateName := call.fn;
      templateArgs := formals.value;
      return Pass;
    }

    /** The inner loop of `findTemplateDefinition`, over the lines of group `g`. */
    method ScanGroup(groups: seq<seq<CommentLine>>, g: nat) returns (o: Outcome)
      requires g < |groups| && AfterDirectives(Directives(groups[..g]))
      modifies this`templateName, this`templateArgs
      ensures o.Pass? ==> AfterDirectives(Directives(groups[..g + 1]))
      ensures o.Fail? ==> Definition(groups, |args|) == Err(o.error)
    {
      var lines := groups[g];
      var l := 0;
      assert lines[..0] == [];
      while l < |lines|
        invariant 0 <= l <= |lines|
        invariant AfterDirectives(Directives(groups[..g]) + DirectivesIn(lines[..l]))
      {
        assert lines[..l + 1][..l] == lines[..l];
        if lines[l].Directive? {
          o := TakeDirective(groups, g, l);
          if o.Fail? {
            return o;
          }
        }
        l := l + 1;
      }
      assert lines[..l] == lines;
      assert groups[..g + 1][..g] == groups[..g];
      return Pass;
    }

    /** The loop over one value spec (template.go:212-230): every name is
        recorded, and the formal parameters are removed together with their
        values. */
    method PruneValueSpec(v: ValueSpec) returns (pruned: ValueSpec, recorded: seq<string>)
      ensures pruned == PruneSpec(v, templateArgs)
      ensures recorded == NamesOf(v.names)
    {
      var namesToRemove: seq<nat> := [];
      recorded := [];
      var j := 0;
      while j < |v.names|
        invariant 0 <= j <= |v.names|
        invariant recorded == NamesOf(v.names[..j])
        invariant Ascending(namesToRemove) && forall k :: 0 <= k < |namesToRemove| ==> namesToRemove[k] < j
        invariant Elems(namesToRemove) == set k | 0 <= k < j && v.names[k].name in templateArgs
      {
        var x := v.names[j].name;
        recorded := recorded + [x];
        var isArg := IsTemplateArgument(x);
        if isArg {
          ElemsAppend(namesToRemove, j);
          namesToRemove := namesToRemove + [j];
        }
        assert Elems(namesToRemove) == set k | 0 <= k < j + 1 && v.names[k].name in templateArgs;
        j := j + 1;
      }
      assert v.names[..j] == v.names;
      var names := RemoveIndices(v.names, namesToRemove);
      var values := RemoveValues(v.values, namesToRemove);
      pruned := ValueSpec(names, v.typ, values);
    }

    /** The `token.CONST, token.VAR` case (template.go:207-237). */
    method PruneValueDecl(isConst: bool, specs: seq<ValueSpec>) returns (kept: Option<Decl>, recorded: seq<string>)
      ensures kept == PruneDecl(ValueDecl(isConst, specs), templateArgs)
      ensures recorded == SpecNames(specs)
    {
      var cur, emptySpecs;
      cur, emptySpecs, recorded := PruneSpecs(specs);
      ghost var formals := templateArgs;
      assert cur == seq(|specs|, i requires 0 <= i < |specs| => PruneSpec(specs[i], formals));
      assert EmptyBelow(cur, |cur|) == EmptyIndices(cur);
      var rest := RemoveIndices(cur, emptySpecs);
      kept := if |rest| == 0 then None else Some(ValueDecl(isConst, rest));
    }

    /** The loop over the specs of a `var` or `const` declaration
        (template.go:211-231): each spec pruned, its names recorded, and the
        indices of the specs left without names collected in order. */
    method PruneSpecs(specs: seq<ValueSpec>) returns (cur: seq<ValueSpec>, emptySpecs: seq<nat>, recorded: seq<string>)
      ensures |cur| == |specs| && forall k :: 0 <= k < |specs| ==> cur[k] == PruneSpec(specs[k], templateArgs)
      ensures Ascending(emptySpecs) && forall k :: 0 <= k < |emptySpecs| ==> emptySpecs[k] < |specs|
      ensures Elems(emptySpecs) == EmptyBelow(cur, |cur|)
      ensures recorded == SpecNames(specs)
    {
      ghost var formals := templateArgs;
      ghost var want := seq(|specs|, i requires 0 <= i < |specs| => PruneSpec(specs[i], formals));
      cur := specs;
      emptySpecs := [];
      recorded := [];
      var i := 0;
      while i < |specs|
        invariant 0 <= i <= |specs| && |cur| == |specs|
        invariant recorded == SpecNames(specs[..i])
        invariant forall k :: 0 <= k < i ==> cur[k] == want[k]
        invariant forall k :: i <= k < |specs| ==> cur[k] == specs[k]
        invariant Ascending(emptySpecs) && forall k :: 0 <= k < |emptySpecs| ==> emptySpecs[k] < i
        invariant Elems(emptySpecs) == EmptyBelow(want, i)
      {
        var names;
        assert specs[..i + 1][..i] == specs[..i];
        cur, emptySpecs, names := PruneSpecStep(cur, i, emptySpecs);
        recorded := recorded + names;
        EmptyBelowStep(want, i);
        i := i + 1;
      }
      assert specs[..i] == specs;
      assert cur == want;
    }

    /** The body of that loop for spec `i`. */
    method PruneSpecStep(cur: seq<ValueSpec>, i: nat, emptySpecs: seq<nat>)
      returns (cur': seq<ValueSpec>, emptySpecs': seq<nat>, names: seq<string>)
      requires i < |cur|
      requires Ascending(emptySpecs) && forall k :: 0 <= k < |emptySpecs| ==> emptySpecs[k] < i
      ensures cur' == cur[i := PruneSpec(cur[i], templateArgs)]
      ensures names == NamesOf(cur[i].names)
      ensures Ascending(emptySpecs') && forall k :: 0 <= k < |emptySpecs'| ==> emptySpecs'[k] < i + 1
      ensures Elems(emptySpecs') == Elems(emptySpecs) + (if PruneSpec(cur[i], templateArgs).names == [] then {i} else {})
    {
      var pruned;
      pruned, names := PruneValueSpec(cur[i]);
      cur' := cur[i := pruned];
      emptySpecs' := emptySpecs;
      if pruned.names == [] {
        ElemsAppend(emptySpecs, i);
        emptySpecs' := emptySpecs + [i];
      }
    }

    /** The `token.TYPE` case (template.go:238-253). */
    method PruneTypeDecl(tspecs: seq<TypeSpec>) returns (kept: Option<Decl>, recorded: seq<string>)
      ensures kept == PruneDecl(TypeDecl(tspecs), templateArgs)
      ensures recorded == TypeNames(tspecs)
    {
      var namesToRemove: seq<nat> := [];
      recorded := [];
      var i := 0;
      while i < |tspecs|
        invariant 0 <= i <= |tspecs|
        invariant |recorded| == i && forall k :: 0 <= k < i ==> recorded[k] == tspecs[k].tname.name
        invariant Ascending(namesToRemove) && forall k :: 0 <= k < |namesToRemove| ==> namesToRemove[k] < i
        invariant Elems(namesToRemove) == TypeArgIndicesBelow(tspecs, templateArgs, i)
      {
        var x := tspecs[i].tname.name;
        recorded := recorded + [x];
        var isArg := IsTemplateArgument(x);
        TypeArgIndicesStep(tspecs, templateArgs, i);
        if isArg {
          ElemsAppend(namesToRemove, i);
          namesToRemove := namesToRemove + [i];
        }
        i := i + 1;
      }
      assert recorded == TypeNames(tspecs);
      var rest := RemoveIndices(tspecs, namesToRemove);
      kept := if |rest| == 0 then None else Some(TypeDecl(rest));
    }

    /** The loop over the declarations of the file (template.go:197-279):
        the declarations that remain and the names to mangle. */
    method Prune(decls: seq<Decl>) returns (r: Result<(seq<Decl>, seq<string>)>)
      ensures r == PruneAll(decls, templateArgs)
    {
      var namesToMangle: seq<string> := [];
      var newDecls: seq<Decl> := [];
      var i := 0;
      while i < |decls|
        invariant 0 <= i <= |decls|
        invariant PruneAll(decls[..i], templateArgs) == Ok((newDecls, namesToMangle))
      {
        var d := decls[i];
        assert decls[..i + 1][..i] == decls[..i];
        var kept: Option<Decl>;
        var recorded: seq<string>;
        match d {
          case ValueDecl(isConst, specs) =>
            kept, recorded := PruneValueDecl(isConst, specs);
          case TypeDecl(tspecs) =>
            kept, recorded := PruneTypeDecl(tspecs);
          case ImportDecl(_) =>
            kept, recorded := Some(d), [];
          case OtherGenDecl(_, _) =>
            kept, recorded := Some(d), [];
          case FuncDecl(recv, fname, _) =>
            if recv.Some? {
              kept, recorded := Some(d), [];
            } else {
              var isArg := IsTemplateArgument(fname.name);
              kept, recorded := if isArg then None else Some(d), [fname.name];
            }
          case BadDecl(_) =>
            PruneAllStopsAt(decls, i, templateArgs);
            return Err(UnknownDecl);
        }
        namesToMangle := namesToMangle + recorded;
        newDecls := newDecls + OptSeq(kept);
        i := i + 1;
      }
      assert decls[..i] == decls;
      return Ok((newDecls, namesToMangle));
    }

    /** The mapping loops of template.go:281-298: the formal parameters to
        the actual arguments, then each recorded name to its instance name;
        fatal when the template's own name was never declared. */
    method MakeMappings(recorded: seq<string>) returns (o: Outcome)
      requires |templateArgs| == |args|
      modifies this`mappings
      ensures mappings == Mangle(Bind(old(mappings), templateArgs, args), recorded, templateName, name, newIsPublic)
      ensures o == if templateName in recorded then Pass else Fail(NoTemplateDeclaration(templateName))
    {
      BindArgs();
      var found := MangleRecorded(recorded);
      if !found {
        return Fail(NoTemplateDeclaration(templateName));
      }
      return Pass;
    }

    /** The first mapping loop (template.go:282-284). */
    method BindArgs()
      requires |templateArgs| == |args|
      modifies this`mappings
      ensures mappings == Bind(old(mappings), templateArgs, args)
    {
      var i := 0;
      while i < |args|
        invariant 0 <= i <= |args|
        invariant mappings == Bind(old(mappings), templateArgs[..i], args[..i])
      {
        assert templateArgs[..i + 1][..i] == templateArgs[..i];
        assert args[..i + 1][..i] == args[..i];
        mappings := mappings[templateArgs[i] := args[i]];
        i := i + 1;
      }
      assert templateArgs[..i] == templateArgs && args[..i] == args;
    }

    /** The second mapping loop (template.go:286-295); `found` records whether
        the template's own name was among the recorded names. */
    method MangleRecorded(recorded: seq<string>) returns (found: bool)
      modifies this`mappings
      ensures mappings == Mangle(old(mappings), recorded, templateName, name, newIsPublic)
      ensures found <==> templateName in recorded
    {
      found := false;
      var j := 0;
      while j < |recorded|
        invariant 0 <= j <= |recorded|
        invariant mappings == Mangle(old(mappings), recorded[..j], templateName, name, newIsPublic)
        invariant found <==> templateName in recorded[..j]
      {
        MangleNext(old(mappings), recorded, j, templateName, name, newIsPublic);
        assert templateName in recorded[..j + 1] <==> templateName in recorded[..j] || recorded[j] == templateName;
        var isTemplate := MangleOne(recorded[j]);
        found := found || isTemplate;
        j := j + 1;
      }
      assert recorded[..j] == recorded;
    }

    /** The body of the second mapping loop for one recorded name `x`. */
    method MangleOne(x: string) returns (isTemplate: bool)
      modifies this`mappings
      ensures isTemplate <==> x == templateName
      ensures mappings == if x == templateName || x !in old(mappings)
                          then old(mappings)[x := NewIdent(MappedName(x, templateName, name, newIsPublic))]
                          else old(mappings)
    {
      isTemplate := x == templateName;
      if isTemplate {
        AddMapping(x);
      } else if x !in mappings {
        AddMapping(x);
      }
    }

    /** The rewrite loop over the mappings in Go's map order, the package
        rename and the output file name (template.go:301-310). */
    method RewriteMappings(file: Node) returns (r: Result<(Node, string)>, order: seq<string>)
      requires file.Struct? && |file.fields| > 0 && file.fields[0].Ident?
      ensures IsListing(order, mappings)
      ensures r == Finished(RewriteAll(file, mappings, order), newPackage, name)
    {
      order := MapOrder(mappings);
      var f := file;
      var i := 0;
      while i < |order|
        invariant 0 <= i <= |order|
        invariant RewriteAll(file, mappings, order[..i]) == Ok(f)
        invariant f.Struct? && |f.fields| > 0 && f.fields[0].Ident?
      {
        var x := order[i];
        assert order[..i + 1][..i] == order[..i];
        RewriteAllShape(file, mappings, order[..i + 1]);
        var next := RewriteFile(f, x, mappings[x]);
        if next.Err? {
          RewriteAllPrefixErr(file, mappings, order, i + 1);
          return Err(next.error), order;
        }
        f := next.value;
        i := i + 1;
      }
      assert order[..i] == order;
      f := Renamed(f, newPackage);
      return Ok((f, OutputName(name))), order;
    }

    /** `parse` from the point where the file has been read (template.go:
        188-310): the file is given as its comment groups, its package name
        and its declarations. */
    method Parse(groups: seq<seq<CommentLine>>, pkg: Name, decls: seq<Decl>)
      returns (r: Result<(Node, string)>, order: seq<string>)
      modifies this`newIsPublic, this`templateName, this`templateArgs, this`mappings
      ensures newIsPublic == IsExported(name)
      ensures var d := Definition(groups, |args|);
              d.Err? ==> r == Err(d.error)
      ensures var d := Definition(groups, |args|);
              d.Ok? ==> templateName == d.value.0 && templateArgs == d.value.1 &&
                        var p := PruneAll(decls, templateArgs);
                        (p.Err? ==> r == Err(p.error)) &&
                        (p.Ok? ==>
                          mappings == Mangle(Bind(old(mappings), templateArgs, args), p.value.1,
                                             templateName, name, newIsPublic) &&
                          (templateName !in p.value.1 ==> r == Err(NoTemplateDeclaration(templateName))) &&
                          (templateName in p.value.1 ==>
                            IsListing(order, mappings) &&
                            r == Finished(RewriteAll(FileNode(pkg, p.value.0), mappings, order), newPackage, name)))
    {
      order := [];
      newIsPublic := IsExported(name);
      var o := FindTemplateDefinition(groups);
      if o.Fail? {
        return Err(o.error), order;
      }
      var p := Prune(decls);
      if p.Err? {
        return Err(p.error), order;
      }
      var newDecls := p.value.0;
      var namesToMangle := p.value.1;
      o := MakeMappings(namesToMangle);
      if o.Fail? {
        return Err(o.error), order;
      }
      r, order := RewriteMappings(FileNode(pkg, newDecls));
    }
  }
}
