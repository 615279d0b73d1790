/**
 * The post-processing step of the rate-limit code generator: it gathers the
 * per-method rate-limit specs written by the protoc plugin, orders them by
 * method name, splits them into community (CE) and enterprise (ENT) specs,
 * and emits the Go source of the `rpcRateLimitSpecs` table, plus an
 * enterprise file next to it when there are enterprise specs.
 *
 * Reading and globbing files, JSON decoding, `go/format` and writing files
 * are not modelled: the decoded spec files are a parameter and the files to
 * write are returned as values.
 */
module Postprocess {
  import opened Bytes

  /** One decoded entry of a `.ratelimit.tmp` file. */
  datatype Spec = Spec(methodName: string, operationType: string, enterprise: bool)

  datatype Result<T> = Success(value: T) | Failure(error: string)

  /** A file `run` asks the operating system to write. */
  datatype Write = Write(path: string, content: string)

  /** What `run` did: the files it wrote, in order, and the error it stopped with, if any. */
  datatype Outcome = Outcome(written: seq<Write>, err: Option<string>)

  const FileHeader: string :=
    "// generated by protoc-gen-consul-rate-limit; DO NOT EDIT.\npackage middleware\n\nimport \"github.com/hashicorp/consul/agent/consul/rate\"\n"

  const EntTags: string := "//go:build consulent\n// +build consulent\n"

  const MapOpen: string := "var rpcRateLimitSpecs = map[string]rate.OperationType{"

  const InitOpen: string := "func init() {\n"

  const SuffixError: string := "-output path must end in .go"

  // ---------------------------------------------------------------------
  // Paths

  /** `strings.HasSuffix`. */
  predicate HasSuffix(s: string, suffix: string) {
    |suffix| <= |s| && s[|s| - |suffix|..] == suffix
  }

  /** `strings.Index` for one character: the first position of `c`, or -1. */
  function FirstIndex(s: string, c: char): (r: int)
    ensures -1 <= r < |s|
    ensures r >= 0 ==> s[r] == c
    ensures forall i | 0 <= i < |s| && (r == -1 || i < r) :: s[i] != c
  {
    if |s| == 0 then -1
    else if s[0] == c then 0
    else
      var k := FirstIndex(s[1..], c);
      assert forall i | 1 <= i < |s| :: s[i] == s[1..][i - 1];
      if k == -1 then -1 else k + 1
  }

  /** The last position of `c` in `s`, or -1. */
  function LastIndex(s: string, c: char): (r: int)
    ensures -1 <= r < |s|
    ensures r >= 0 ==> s[r] == c
    ensures forall i | r < i < |s| :: s[i] != c
  {
    if |s| == 0 then -1
    else if s[|s| - 1] == c then |s| - 1
    else LastIndex(s[..|s| - 1], c)
  }

  /** `filepath.Dir` without cleaning: everything up to and including the last `/`. */
  function Dir(path: string): string {
    path[..LastIndex(path, '/') + 1]
  }

  /** `filepath.Base` without cleaning: everything after the last `/`. */
  function Base(path: string): string {
    path[LastIndex(path, '/') + 1..]
  }

  /** The base name without its extension: everything before its first `.`. */
  function Stem(name: string): string
    requires '.' in name
  {
    name[..FirstIndex(name, '.')]
  }

  /** The extension of a base name: everything from its first `.` on. */
  function Extension(name: string): string
    requires '.' in name
  {
    name[FirstIndex(name, '.')..]
  }

  /**
   * `enterpriseFileName`: `_ent` inserted immediately before the first `.`
   * of the base name, the directory kept. A base name without a `.` makes
   * the source slice with index -1, which panics; that is `None` here.
   */
  function EnterpriseFileName(path: string): (r: Option<string>)
    ensures r.None? <==> '.' !in Base(path)
  {
    var name := Base(path);
    var extStart := FirstIndex(name, '.');
    if extStart < 0 then None
    else Some(Dir(path) + (name[0..extStart] + "_ent" + name[extStart..]))
  }

  /** A name without a directory separator. */
  predicate NoSlash(s: string) {
    forall i | 0 <= i < |s| :: s[i] != '/'
  }

  lemma PathSplit(path: string)
    ensures Dir(path) + Base(path) == path
    ensures NoSlash(Base(path))
  {
  }

  /** The documented example: `bar/baz/foo.gen.go` becomes `bar/baz/foo_ent.gen.go`. */
  lemma EnterpriseFileNameExample()
    ensures EnterpriseFileName("bar/baz/foo.gen.go") == Some("bar/baz/foo_ent.gen.go")
  {
    var p, name := "bar/baz/foo.gen.go", "foo.gen.go";
    ExampleSplit();
    ExampleExtension();
    assert EnterpriseFileName(p) == Some("bar/baz/" + (name[0..3] + "_ent" + name[3..]));
    assert name[0..3] == "foo" && name[3..] == ".gen.go";
    ExampleJoin();
  }

  lemma ExampleJoin()
    ensures "bar/baz/" + ("foo" + "_ent" + ".gen.go") == "bar/baz/foo_ent.gen.go"
  {
  }

  lemma ExampleSplit()
    ensures Dir("bar/baz/foo.gen.go") == "bar/baz/"
    ensures Base("bar/baz/foo.gen.go") == "foo.gen.go"
  {
    var p := "bar/baz/foo.gen.go";
    assert p[8..] == "foo.gen.go";
    LastIndexIsLast(p, '/', 7);
    assert p[..8] == "bar/baz/";
  }

  lemma ExampleExtension()
    ensures FirstIndex("foo.gen.go", '.') == 3
  {
    FirstIndexIsFirst("foo.gen.go", '.', 3);
  }

  /** Every path `run` accepts has an enterprise name: its base name holds the `.` of `.go`. */
  lemma GoPathHasEnterpriseName(path: string)
    requires HasSuffix(path, ".go")
    ensures EnterpriseFileName(path).Some?
  {
    var k := LastIndex(path, '/');
    var d := |path| - 3;
    var ext := path[d..];
    assert ext == ".go";
    assert path[d] == ext[0] == '.';
    assert path[d + 1] == ext[1] && path[d + 2] == ext[2];
    assert k < d;
    var name := Base(path);
    assert name == path[k + 1..];
    assert name[d - (k + 1)] == '.';
  }

  /** The name with `_ent` inserted has the same directory, and that name as its base. */
  lemma InsertedSplit(path: string, newName: string)
    requires NoSlash(newName)
    ensures Dir(Dir(path) + newName) == Dir(path)
    ensures Base(Dir(path) + newName) == newName
  {
    var q := Dir(path) + newName;
    var d := |Dir(path)|;
    PathSplit(path);
    assert forall i | d <= i < |q| :: q[i] == newName[i - d];
    if d > 0 {
      assert q[d - 1] == path[d - 1];
    }
    LastIndexIsLast(q, '/', d - 1);
  }

  /** `_ent` inserted before the first `.` leaves that `.` the first one, four places on. */
  lemma InsertedStem(name: string)
    requires '.' in name
    requires NoSlash(name)
    ensures var newName := Stem(name) + "_ent" + Extension(name);
      && NoSlash(newName)
      && '.' in newName
      && Stem(newName) == Stem(name) + "_ent"
      && Extension(newName) == Extension(name)
  {
    var e := FirstIndex(name, '.');
    var newName := name[..e] + "_ent" + name[e..];
    assert forall i | 0 <= i < e :: newName[i] == name[i];
    assert forall i | e <= i < e + 4 :: newName[i] == "_ent"[i - e];
    assert forall i | e + 4 <= i < |newName| :: newName[i] == name[i - 4];
    assert newName[e + 4] == '.';
    FirstIndexIsFirst(newName, '.', e + 4);
    assert newName[..e + 4] == name[..e] + "_ent";
    assert newName[e + 4..] == name[e..];
  }

  /**
   * Splitting the enterprise name again gives back the same directory and
   * extension, and the original stem followed by `_ent`.
   */
  lemma EnterpriseFileNameParts(path: string)
    requires '.' in Base(path)
    ensures var q := EnterpriseFileName(path).value;
      && Dir(q) == Dir(path)
      && '.' in Base(q)
      && Stem(Base(q)) == Stem(Base(path)) + "_ent"
      && Extension(Base(q)) == Extension(Base(path))
  {
    var name := Base(path);
    PathSplit(path);
    InsertedStem(name);
    assert EnterpriseFileName(path).value == Dir(path) + (Stem(name) + "_ent" + Extension(name));
    InsertedSplit(path, Stem(name) + "_ent" + Extension(name));
  }

  /** A position holding `c` with no `c` after it is the last index of `c`. */
  lemma LastIndexIsLast(s: string, c: char, k: int)
    requires -1 <= k < |s|
    requires k >= 0 ==> s[k] == c
    requires forall i | k < i < |s| :: s[i] != c
    ensures LastIndex(s, c) == k
  {
  }

  /** A position holding `c` with no `c` before it is the first index of `c`. */
  lemma FirstIndexIsFirst(s: string, c: char, k: int)
    requires 0 <= k < |s| && s[k] == c
    requires forall i | 0 <= i < k :: s[i] != c
    ensures FirstIndex(s, c) == k
  {
  }

  // ---------------------------------------------------------------------
  // Operation types

  const WriteName: string := "OPERATION_TYPE_WRITE"
  const ReadName: string := "OPERATION_TYPE_READ"
  const ExemptName: string := "OPERATION_TYPE_EXEMPT"

  /** The panic message for an unknown operation type. */
  function UnknownOperationType(operationType: string): string {
    "unknown rate limit operation type: " + operationType
  }

  /**
   * `spec.GoOperationType`: the Go constant for the spec's operation type.
   * Any other type panics in the source; here it is a `Failure`.
   */
  function GoOperationType(s: Spec): (r: Result<string>)
    ensures r.Success? <==> s.operationType in {WriteName, ReadName, ExemptName}
    ensures r.Failure? ==> r.error == UnknownOperationType(s.operationType)
  {
    match s.operationType
    case "OPERATION_TYPE_WRITE" => Success("rate.OperationTypeWrite")
    case "OPERATION_TYPE_READ" => Success("rate.OperationTypeRead")
    case "OPERATION_TYPE_EXEMPT" => Success("rate.OperationTypeExempt")
    case _ => Failure(UnknownOperationType(s.operationType))
  }

  /** The operation type a Go constant stands for: the inverse of `GoOperationType`. */
  function ProtoOperationType(goName: string): Option<string> {
    if goName == "rate.OperationTypeWrite" then Some(WriteName)
    else if goName == "rate.OperationTypeRead" then Some(ReadName)
    else if goName == "rate.OperationTypeExempt" then Some(ExemptName)
    else None
  }

  /** The mapping is one-to-one: every Go constant produced names the type it came from, and only those. */
  lemma OperationTypeRoundTrip(s: Spec, goName: string)
    ensures GoOperationType(s).Success? ==> ProtoOperationType(GoOperationType(s).value) == Some(s.operationType)
    ensures ProtoOperationType(goName) == Some(s.operationType) ==> GoOperationType(s) == Success(goName)
  {
  }

  predicate Known(s: Spec) {
    GoOperationType(s).Success?
  }

  predicate AllKnown(specs: seq<Spec>) {
    forall s | s in specs :: Known(s)
  }

  // ---------------------------------------------------------------------
  // Ordering and partition

  /** Go's `<` on strings: lexicographic order, a proper prefix first. */
  predicate NameLess(a: string, b: string)
    decreases |a|
  {
    |b| > 0 && (|a| == 0 || a[0] < b[0] || (a[0] == b[0] && NameLess(a[1..], b[1..])))
  }

  lemma {:induction false} NameLessTrans(a: string, b: string, c: string)
    requires NameLess(a, b) && NameLess(b, c)
    ensures NameLess(a, c)
    decreases |a|
  {
    if |a| > 0 && a[0] == b[0] && b[0] == c[0] {
      NameLessTrans(a[1..], b[1..], c[1..]);
    }
  }

  lemma {:induction false} NameLessTotal(a: string, b: string)
    ensures a == b || NameLess(a, b) || NameLess(b, a)
    ensures !(NameLess(a, b) && NameLess(b, a))
    decreases |a|
  {
    if |a| > 0 && |b| > 0 && a[0] == b[0] {
      NameLessTotal(a[1..], b[1..]);
      assert a == [a[0]] + a[1..] && b == [b[0]] + b[1..];
    }
  }

  /** "Not less" chains: the order `sort.Slice` leaves behind is transitive. */
  lemma NotLessTrans(a: string, b: string, c: string)
    requires !NameLess(b, a) && !NameLess(c, b)
    ensures !NameLess(c, a)
  {
    if NameLess(c, a) {
      NameLessTotal(a, b);
      NameLessTrans(c, a, b);
    }
  }

  /** Sorted by `MethodName` the way `sort.Slice` with `<` leaves a slice: no later name is less than an earlier one. */
  predicate Sorted(specs: seq<Spec>) {
    forall i, j | 0 <= i < j < |specs| :: !NameLess(specs[j].methodName, specs[i].methodName)
  }

  lemma PrependSorted(h: Spec, t: seq<Spec>)
    requires Sorted(t)
    requires forall y | y in t :: !NameLess(y.methodName, h.methodName)
    ensures Sorted([h] + t)
  {
    var s := [h] + t;
    forall i, j | 0 <= i < j < |s|
      ensures !NameLess(s[j].methodName, s[i].methodName)
    {
      if i > 0 {
        assert s[i] == t[i - 1] && s[j] == t[j - 1];
      } else {
        assert s[j] in t;
      }
    }
  }

  /** A spec no greater than the head of a sorted sequence may go in front of it. */
  lemma InsertFront(x: Spec, s: seq<Spec>)
    requires Sorted(s) && |s| > 0 && !NameLess(s[0].methodName, x.methodName)
    ensures Sorted([x] + s)
  {
    forall y | y in s ensures !NameLess(y.methodName, x.methodName) {
      if y != s[0] {
        var j :| 0 <= j < |s| && s[j] == y;
        NotLessTrans(x.methodName, s[0].methodName, y.methodName);
      }
    }
    PrependSorted(x, s);
  }

  /** The head of a sorted sequence stays in front of its tail with a greater spec inserted. */
  lemma InsertBehind(x: Spec, s: seq<Spec>, rest: seq<Spec>)
    requires Sorted(s) && |s| > 0 && NameLess(s[0].methodName, x.methodName)
    requires Sorted(rest) && multiset(rest) == multiset(s[1..]) + multiset{x}
    ensures Sorted([s[0]] + rest)
  {
    forall y | y in rest ensures !NameLess(y.methodName, s[0].methodName) {
      assert y in multiset(rest);
      if y == x {
        NameLessTotal(x.methodName, s[0].methodName);
      } else {
        assert y in s[1..];
        var j :| 0 <= j < |s[1..]| && s[1..][j] == y;
        assert s[j + 1] == y;
      }
    }
    PrependSorted(s[0], rest);
  }

  /** A sequence's multiset is its head's plus its tail's. */
  lemma MultisetCons<X>(s: seq<X>)
    requires |s| > 0
    ensures multiset(s) == multiset{s[0]} + multiset(s[1..])
  {
    assert s == [s[0]] + s[1..];
  }

  /** One insertion step of a sort by method name. */
  function InsertByName(x: Spec, s: seq<Spec>): (r: seq<Spec>)
    requires Sorted(s)
    ensures Sorted(r)
    ensures multiset(r) == multiset(s) + multiset{x}
  {
    if |s| == 0 then [x]
    else if !NameLess(s[0].methodName, x.methodName) then
      InsertFront(x, s);
      MultisetCons(s);
      [x] + s
    else
      var rest := InsertByName(x, s[1..]);
      InsertBehind(x, s, rest);
      MultisetCons(s);
      [s[0]] + rest
  }

  /**
   * `sort.Slice(specs, less by MethodName)`: one ordering by method name of
   * the same specs. The library is not stable, so it may order equal names
   * differently; only `Sorted` and the multiset are relied on below.
   */
  function SortByName(specs: seq<Spec>): (r: seq<Spec>)
    ensures Sorted(r)
    ensures multiset(r) == multiset(specs)
  {
    if |specs| == 0 then []
    else
      assert specs == [specs[0]] + specs[1..];
      InsertByName(specs[0], SortByName(specs[1..]))
  }

  /** The specs whose `Enterprise` flag is `enterprise`, in their order. */
  function Select(specs: seq<Spec>, enterprise: bool): (r: seq<Spec>)
    ensures |r| <= |specs|
    ensures forall x :: x in r <==> x in specs && x.enterprise == enterprise
  {
    if |specs| == 0 then []
    else
      var last := specs[|specs| - 1];
      var init := specs[..|specs| - 1];
      assert specs == init + [last];
      Select(init, enterprise) + (if last.enterprise == enterprise then [last] else [])
  }

  /** One more spec at the end adds it to its own half only. */
  lemma SelectSnoc(specs: seq<Spec>, enterprise: bool)
    requires |specs| > 0
    ensures var last := specs[|specs| - 1];
      multiset(Select(specs, enterprise))
      == multiset(Select(specs[..|specs| - 1], enterprise))
        + (if last.enterprise == enterprise then multiset{last} else multiset{})
  {
  }

  /** Selecting from one more spec of a sequence appends that spec to its own half. */
  lemma SelectStep(specs: seq<Spec>, i: nat, enterprise: bool)
    requires i < |specs|
    ensures Select(specs[..i + 1], enterprise)
      == Select(specs[..i], enterprise) + (if specs[i].enterprise == enterprise then [specs[i]] else [])
  {
    assert specs[..i + 1][..i] == specs[..i];
  }

  /** The two halves of the partition together are a permutation of its input. */
  lemma {:induction false} SelectPermutation(specs: seq<Spec>)
    ensures multiset(Select(specs, false)) + multiset(Select(specs, true)) == multiset(specs)
  {
    if |specs| > 0 {
      var init := specs[..|specs| - 1];
      var last := specs[|specs| - 1];
      SelectPermutation(init);
      SelectSnoc(specs, false);
      SelectSnoc(specs, true);
      MultisetSnoc(specs);
      SplitSnoc(multiset(Select(init, false)), multiset(Select(init, true)), last, last.enterprise);
    }
  }

  /** A sequence's multiset is that of all but its last element, plus the last. */
  lemma MultisetSnoc<X>(s: seq<X>)
    requires |s| > 0
    ensures multiset(s) == multiset(s[..|s| - 1]) + multiset{s[|s| - 1]}
  {
    assert s == s[..|s| - 1] + [s[|s| - 1]];
  }

  /** Adding `x` to one of two parts adds it to their sum. */
  lemma SplitSnoc<X>(a: multiset<X>, b: multiset<X>, x: X, toB: bool)
    ensures (if toB then a else a + multiset{x}) + (if toB then b + multiset{x} else b)
      == a + b + multiset{x}
  {
  }

  /** Selecting keeps the order: each half of a sorted sequence is sorted. */
  lemma {:induction false} SelectSorted(specs: seq<Spec>, enterprise: bool)
    requires Sorted(specs)
    ensures Sorted(Select(specs, enterprise))
  {
    if |specs| > 0 {
      var last := specs[|specs| - 1];
      var init := specs[..|specs| - 1];
      assert Sorted(init);
      SelectSorted(init, enterprise);
      var a := Select(init, enterprise);
      if last.enterprise == enterprise {
        var r := a + [last];
        forall i, j | 0 <= i < j < |r|
          ensures !NameLess(r[j].methodName, r[i].methodName)
        {
          if j == |r| - 1 {
            assert r[i] in init;
            var k :| 0 <= k < |init| && init[k] == r[i];
            assert specs[k] == r[i];
          } else {
            assert r[i] == a[i] && r[j] == a[j];
          }
        }
      }
    }
  }

  /** The specs of all decoded files, in file order. */
  function Flatten(files: seq<seq<Spec>>): seq<Spec> {
    if |files| == 0 then [] else Flatten(files[..|files| - 1]) + files[|files| - 1]
  }

  /**
   * The sort and partition of `collectSpecs`, after the files are read:
   * the decoded files are concatenated, sorted by method name, then split
   * into the CE and enterprise specs in one pass.
   */
  method CollectSpecs(files: seq<seq<Spec>>) returns (ce: seq<Spec>, ent: seq<Spec>)
    ensures ce == Select(SortByName(Flatten(files)), false)
    ensures ent == Select(SortByName(Flatten(files)), true)
  {
    var specs: seq<Spec> := [];
    var f := 0;
    while f < |files|
      invariant 0 <= f <= |files|
      invariant specs == Flatten(files[..f])
    {
      assert files[..f + 1][..f] == files[..f];
      specs := specs + files[f];
      f := f + 1;
    }
    assert files[..|files|] == files;
    specs := SortByName(specs);
    ce, ent := Partition(specs);
  }

  /**
   * What `collectSpecs` promises its caller: `ce` holds exactly the
   * non-enterprise specs and `ent` exactly the enterprise ones, each
   * ordered by method name, and together they are a permutation of the
   * decoded specs.
   */
  lemma CollectedSpecs(specs: seq<Spec>)
    ensures var sorted := SortByName(specs);
      var ce := Select(sorted, false);
      var ent := Select(sorted, true);
      && Sorted(ce) && Sorted(ent)
      && (forall s | s in ce :: !s.enterprise)
      && (forall s | s in ent :: s.enterprise)
      && multiset(ce) + multiset(ent) == multiset(specs)
  {
    var sorted := SortByName(specs);
    SelectSorted(sorted, false);
    SelectSorted(sorted, true);
    SelectPermutation(sorted);
  }

  /** The loop of `collectSpecs` that appends each spec to `ce` or to `ent` by its `Enterprise` flag. */
  method Partition(specs: seq<Spec>) returns (ce: seq<Spec>, ent: seq<Spec>)
    ensures ce == Select(specs, false)
    ensures ent == Select(specs, true)
  {
    ce, ent := [], [];
    var i := 0;
    assert specs[..0] == [];
    while i < |specs|
      invariant 0 <= i <= |specs|
      invariant ce == Select(specs[..i], false)
      invariant ent == Select(specs[..i], true)
    {
      SelectStep(specs, i, false);
      SelectStep(specs, i, true);
      if specs[i].enterprise {
        ent := ent + [specs[i]];
      } else {
        ce := ce + [specs[i]];
      }
      i := i + 1;
    }
    assert specs[..|specs|] == specs;
  }

  /** An enterprise file is due exactly when some decoded spec is an enterprise spec. */
  lemma EnterpriseSpecsPresent(specs: seq<Spec>)
    ensures |Select(SortByName(specs), true)| > 0 <==> exists s | s in specs :: s.enterprise
  {
    var sorted := SortByName(specs);
    var ent := Select(sorted, true);
    if |ent| > 0 {
      var s := ent[0];
      assert s in sorted;
      assert s in multiset(specs) by {
        assert s in multiset(sorted);
      }
      assert s in specs && s.enterprise;
    }
    if exists s | s in specs :: s.enterprise {
      var s :| s in specs && s.enterprise;
      assert s in sorted by {
        assert s in multiset(specs);
      }
      assert s in ent;
    }
  }

  // ---------------------------------------------------------------------
  // Emitted source

  /** The two tables the generator writes: the CE map literal and the enterprise `init` assignments. */
  datatype Table = MapLiteral | InitAssignments

  /** The text before the first entry. */
  function Preamble(table: Table): string {
    match table
    case MapLiteral => FileHeader + MapOpen + "\n"
    case InitAssignments => EntTags + FileHeader + InitOpen
  }

  /** The text one `Fprintf` writes for a method name and its Go operation type. */
  function Line(table: Table, methodName: string, op: string): string {
    match table
    case MapLiteral => "\"" + methodName + "\": " + op + ","
    case InitAssignments => "rpcRateLimitSpecs[\"" + methodName + "\"] = " + op
  }

  /** The line emitted for one spec, newline included. */
  function Entry(table: Table, s: Spec): string
    requires Known(s)
  {
    Line(table, s.methodName, GoOperationType(s).value) + "\n"
  }

  /** The entries of all specs, in input order. */
  function Entries(table: Table, specs: seq<Spec>): string
    requires AllKnown(specs)
  {
    if |specs| == 0 then ""
    else Entries(table, specs[..|specs| - 1]) + Entry(table, specs[|specs| - 1])
  }

  /** The unformatted source of a table. */
  function Source(table: Table, specs: seq<Spec>): string
    requires AllKnown(specs)
  {
    Preamble(table) + Entries(table, specs) + "}"
  }

  lemma {:induction false} EntriesAppend(table: Table, a: seq<Spec>, b: seq<Spec>)
    requires AllKnown(a) && AllKnown(b)
    ensures AllKnown(a + b)
    ensures Entries(table, a + b) == Entries(table, a) + Entries(table, b)
    decreases |b|
  {
    if |b| > 0 {
      var b' := b[..|b| - 1];
      assert (a + b)[..|a + b| - 1] == a + b';
      EntriesAppend(table, a, b');
    } else {
      assert a + b == a;
    }
  }

  /**
   * One line per spec, in input order: the entries are the lines of the
   * specs before `i`, the line of spec `i`, then the lines of the specs
   * after it.
   */
  lemma EntryAt(table: Table, specs: seq<Spec>, i: int)
    requires AllKnown(specs)
    requires 0 <= i < |specs|
    ensures Entries(table, specs)
         == Entries(table, specs[..i]) + Entry(table, specs[i]) + Entries(table, specs[i + 1..])
  {
    assert specs == specs[..i] + [specs[i]] + specs[i + 1..];
    assert Entries(table, [specs[i]]) == Entry(table, specs[i]) by {
      assert [specs[i]][..0] == [];
    }
    EntriesAppend(table, specs[..i], [specs[i]]);
    EntriesAppend(table, specs[..i] + [specs[i]], specs[i + 1..]);
  }

  /** Index of the first spec whose operation type is unknown. */
  function FirstUnknown(specs: seq<Spec>): (r: int)
    requires !AllKnown(specs)
    ensures 0 <= r < |specs| && !Known(specs[r]) && AllKnown(specs[..r])
  {
    if !Known(specs[0]) then 0
    else
      assert specs == [specs[0]] + specs[1..];
      var k := FirstUnknown(specs[1..]);
      assert specs[..k + 1] == [specs[0]] + specs[1..][..k];
      k + 1
  }

  lemma AppendEmpty(s: string)
    ensures s + "" == s
  {
  }

  lemma AppendAssoc(a: string, b: string, c: string)
    ensures (a + b) + c == a + (b + c)
  {
  }

  /** The first unknown spec is the one the emission loops stop at. */
  lemma FirstUnknownAt(specs: seq<Spec>, i: int)
    requires 0 <= i < |specs|
    requires AllKnown(specs[..i]) && !Known(specs[i])
    ensures !AllKnown(specs) && FirstUnknown(specs) == i
  {
    assert specs[i] in specs;
  }

  /** One more spec adds its line at the end. */
  lemma EntriesSnoc(table: Table, specs: seq<Spec>, i: int)
    requires 0 <= i < |specs|
    requires AllKnown(specs[..i]) && Known(specs[i])
    ensures AllKnown(specs[..i + 1])
    ensures Entries(table, specs[..i + 1]) == Entries(table, specs[..i]) + Entry(table, specs[i])
  {
    assert specs[..i + 1] == specs[..i] + [specs[i]];
    assert specs[..i + 1][..i] == specs[..i];
  }

  /**
   * The `for _, spec := range specs` loop shared by `generateCE` and
   * `generateENT`: appends one line per spec to `output`, and stops with
   * the panic message at the first spec with an unknown operation type.
   */
  method WriteEntries(table: Table, output: string, specs: seq<Spec>) returns (r: Result<string>)
    ensures r.Success? <==> AllKnown(specs)
    ensures r.Success? ==> r.value == output + Entries(table, specs)
    ensures r.Failure? ==> r.error == UnknownOperationType(specs[FirstUnknown(specs)].operationType)
  {
    var buffer := output;
    assert Entries(table, specs[..0]) == "";
    AppendEmpty(buffer);
    var i := 0;
    while i < |specs|
      invariant 0 <= i <= |specs|
      invariant AllKnown(specs[..i])
      invariant buffer == output + Entries(table, specs[..i])
    {
      var op := GoOperationType(specs[i]);
      if op.Failure? {
        FirstUnknownAt(specs, i);
        return Failure(op.error);
      }
      ghost var before := buffer;
      buffer := buffer + Line(table, specs[i].methodName, op.value);
      buffer := buffer + "\n";
      assert buffer == before + Entry(table, specs[i]);
      EntriesSnoc(table, specs, i);
      AppendAssoc(output, Entries(table, specs[..i]), Entry(table, specs[i]));
      i := i + 1;
    }
    assert specs[..i] == specs;
    return Success(buffer);
  }

  /**
   * `generateCE` before formatting: the header, the opening of the
   * `rpcRateLimitSpecs` map literal, one `"name": op,` line per spec and
   * the closing brace. An unknown operation type stops it with the
   * message of the first such spec.
   */
  method GenerateCE(specs: seq<Spec>) returns (r: Result<string>)
    ensures r.Success? <==> AllKnown(specs)
    ensures r.Success? ==> r.value == Source(MapLiteral, specs)
    ensures r.Failure? ==> r.error == UnknownOperationType(specs[FirstUnknown(specs)].operationType)
  {
    var output := FileHeader;
    output := output + MapOpen + "\n";
    assert output == Preamble(MapLiteral);
    r := WriteEntries(MapLiteral, output, specs);
    if r.Success? {
      r := Success(r.value + "}");
    }
  }

  /**
   * `generateENT` before formatting: the build tags, the header, `func
   * init() {`, one `rpcRateLimitSpecs["name"] = op` line per spec and the
   * closing brace. An unknown operation type stops it with the message of
   * the first such spec.
   */
  method GenerateENT(specs: seq<Spec>) returns (r: Result<string>)
    ensures r.Success? <==> AllKnown(specs)
    ensures r.Success? ==> r.value == Source(InitAssignments, specs)
    ensures r.Failure? ==> r.error == UnknownOperationType(specs[FirstUnknown(specs)].operationType)
  {
    var output := EntTags;
    output := output + FileHeader;
    output := output + InitOpen;
    assert output == Preamble(InitAssignments);
    r := WriteEntries(InitAssignments, output, specs);
    if r.Success? {
      r := Success(r.value + "}");
    }
  }

  // ---------------------------------------------------------------------
  // run

  /**
   * `run`: rejects an output path not ending in `.go` before anything
   * else; writes the CE table to the output path; and, only when there are
   * enterprise specs, writes the enterprise table to the enterprise name
   * of the output path. An unknown operation type stops it, after the CE
   * file is written when it is only among the enterprise specs.
   */
  method Run(files: seq<seq<Spec>>, outputPath: string) returns (o: Outcome)
    ensures !HasSuffix(outputPath, ".go") ==> o == Outcome([], Some(SuffixError))
    ensures HasSuffix(outputPath, ".go") ==>
      var specs := SortByName(Flatten(files));
      var ce := Select(specs, false);
      var ent := Select(specs, true);
      && (o.err.None? <==> AllKnown(ce) && AllKnown(ent))
      && (AllKnown(ce) ==> |o.written| >= 1 && o.written[0] == Write(outputPath, Source(MapLiteral, ce)))
      && (!AllKnown(ce) ==> o.written == [])
      && (!AllKnown(ce) ==> o.err == Some(UnknownOperationType(ce[FirstUnknown(ce)].operationType)))
      && (AllKnown(ce) && !AllKnown(ent) ==> o.err == Some(UnknownOperationType(ent[FirstUnknown(ent)].operationType)))
      && (|o.written| == 2 <==> AllKnown(ce) && AllKnown(ent) && |ent| > 0)
      && (|o.written| == 2 ==>
            && EnterpriseFileName(outputPath) == Some(o.written[1].path)
            && o.written[1].content == Source(InitAssignments, ent))
      && |o.written| <= 2
  {
    if !HasSuffix(outputPath, ".go") {
      return Outcome([], Some(SuffixError));
    }
    var ce, ent := CollectSpecs(files);
    var ceSource := GenerateCE(ce);
    if ceSource.Failure? {
      return Outcome([], Some(ceSource.error));
    }
    var written := [Write(outputPath, ceSource.value)];
    if |ent| > 0 {
      var entSource := GenerateENT(ent);
      if entSource.Failure? {
        return Outcome(written, Some(entSource.error));
      }
      GoPathHasEnterpriseName(outputPath);
      written := written + [Write(EnterpriseFileName(outputPath).value, entSource.value)];
    }
    return Outcome(written, None);
  }
}
