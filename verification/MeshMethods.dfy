/** The mesh.methods metadata parser of pkg/registry/registry.go. */
module MeshMethods {
  import opened Common

  const MESH_METHODS_KEY := "mesh.methods"

  /** unicode.IsSpace */
  predicate IsSpace(c: char) {
    var n := c as int;
    0x09 <= n <= 0x0D || n == 0x20 || n == 0x85 || n == 0xA0 || n == 0x1680 || 0x2000 <= n <= 0x200A
    || n == 0x2028 || n == 0x2029 || n == 0x202F || n == 0x205F || n == 0x3000
  }

  function TrimLeft(s: string): string {
    if s != [] && IsSpace(s[0]) then TrimLeft(s[1..]) else s
  }

  function TrimRight(s: string): string {
    if s != [] && IsSpace(s[|s| - 1]) then TrimRight(s[..|s| - 1]) else s
  }

  /** strings.TrimSpace */
  function TrimSpace(s: string): string {
    TrimRight(TrimLeft(s))
  }

  /** strings.Split(s, ",") */
  function Split(s: string): (parts: seq<string>)
    ensures parts != []
  {
    if s == [] then [[]]
    else
      var rest := Split(s[1..]);
      if s[0] == ',' then [[]] + rest else [[s[0]] + rest[0]] + rest[1..]
  }

  function Join(parts: seq<string>): string {
    if parts == [] then []
    else if |parts| == 1 then parts[0]
    else parts[0] + "," + Join(parts[1..])
  }

  /** The trimmed parts that are not empty. */
  function Keep(parts: seq<string>): seq<string> {
    if parts == [] then []
    else Keep(parts[..|parts| - 1]) + Single(parts[|parts| - 1])
  }

  function Single(part: string): seq<string> {
    if TrimSpace(part) == [] then [] else [TrimSpace(part)]
  }

  function Names(raw: string): seq<string> {
    Keep(Split(raw))
  }

  /** `metadata` is None for a nil handshake; a None result is Go's nil slice. */
  method ParseMeshMethods(metadata: Option<map<string, string>>) returns (methods: Option<seq<string>>)
    ensures var raw := if metadata.Some? then Lookup(metadata.value, "mesh.methods", "") else "";
            methods == if raw == "" then None else Some(Names(raw))
  {
    if metadata.None? {
      return None;
    }
    var raw := Lookup(metadata.value, MESH_METHODS_KEY, "");
    if raw == "" {
      return None;
    }
    var parts := Split(raw);
    var names := [];
    for i := 0 to |parts|
      invariant names == Keep(parts[..i])
    {
      var trimmed := TrimSpace(parts[i]);
      assert parts[..i + 1][..i] == parts[..i];
      if trimmed != "" {
        names := names + [trimmed];
      }
    }
    assert parts[..|parts|] == parts;
    methods := Some(names);
  }

  // ---- What trimming means ----

  predicate AllSpace(s: string) {
    forall i | 0 <= i < |s| :: IsSpace(s[i])
  }

  predicate Trimmed(s: string) {
    s == [] || (!IsSpace(s[0]) && !IsSpace(s[|s| - 1]))
  }

  /** Only white space goes, from the two ends, and all of it. */
  lemma TrimSpaceMeans(s: string) returns (left: string, right: string)
    ensures s == left + TrimSpace(s) + right && AllSpace(left) && AllSpace(right)
    ensures Trimmed(TrimSpace(s))
  {
    left := TrimLeftMeans(s);
    right := TrimRightMeans(TrimLeft(s));
    assert s == left + (TrimSpace(s) + right);
    if TrimSpace(s) != [] { assert TrimLeft(s)[0] == TrimSpace(s)[0]; }
  }

  lemma {:induction false} TrimLeftMeans(s: string) returns (left: string)
    ensures s == left + TrimLeft(s) && AllSpace(left)
    ensures TrimLeft(s) != [] ==> !IsSpace(TrimLeft(s)[0])
  {
    left := [];
    if s != [] && IsSpace(s[0]) {
      var l := TrimLeftMeans(s[1..]);
      left := [s[0]] + l;
    }
  }

  lemma {:induction false} TrimRightMeans(s: string) returns (right: string)
    ensures s == TrimRight(s) + right && AllSpace(right)
    ensures TrimRight(s) != [] ==> !IsSpace(TrimRight(s)[|TrimRight(s)| - 1])
  {
    right := [];
    if s != [] && IsSpace(s[|s| - 1]) {
      var r := TrimRightMeans(s[..|s| - 1]);
      right := r + [s[|s| - 1]];
    }
  }

  lemma TrimmedStays(s: string)
    requires Trimmed(s)
    ensures TrimSpace(s) == s
  {
  }

  // ---- Splitting and joining ----

  lemma {:induction false} SplitComma(a: string, b: string)
    ensures Split(a + "," + b) == Split(a) + Split(b)
  {
    var s := a + "," + b;
    if a == [] {
      assert s[1..] == b;
    } else {
      assert s[1..] == a[1..] + "," + b;
      SplitComma(a[1..], b);
    }
  }

  lemma {:induction false} SplitPlain(s: string)
    requires ',' !in s
    ensures Split(s) == [s]
  {
    if s != [] {
      SplitPlain(s[1..]);
      assert s == [s[0]] + s[1..];
    }
  }

  /** Joining is the left inverse of splitting, and the parts hold no comma. */
  lemma {:induction false} JoinSplit(s: string)
    ensures Join(Split(s)) == s
    ensures forall i | 0 <= i < |Split(s)| :: ',' !in Split(s)[i]
  {
    if s != [] {
      JoinSplit(s[1..]);
      var rest := Split(s[1..]);
      if s[0] == ',' {
        assert ([[]] + rest)[1..] == rest;
      } else {
        var first := [s[0]] + rest[0];
        assert ([first] + rest[1..])[1..] == rest[1..];
        if |rest| > 1 { assert first + "," + Join(rest[1..]) == [s[0]] + (rest[0] + "," + Join(rest[1..])); }
      }
    }
  }

  lemma {:induction false} KeepConcat(xs: seq<string>, ys: seq<string>)
    ensures Keep(xs + ys) == Keep(xs) + Keep(ys)
  {
    if ys == [] {
      assert xs + ys == xs;
    } else {
      assert (xs + ys)[..|xs + ys| - 1] == xs + ys[..|ys| - 1];
      KeepConcat(xs, ys[..|ys| - 1]);
    }
  }

  /** The two laws that determine the parser: a text without commas is one name or none, and a comma
      separates two lists. */
  lemma NamesLaws(a: string, b: string)
    ensures ',' !in a ==> Names(a) == Single(a)
    ensures Names(a + "," + b) == Names(a) + Names(b)
  {
    if ',' !in a {
      SplitPlain(a);
      assert [a][..0] == [];
    }
    SplitComma(a, b);
    KeepConcat(Split(a), Split(b));
  }

  // ---- Canonical lists ----

  predicate Canonical(name: string) {
    name != [] && ',' !in name && Trimmed(name)
  }

  predicate AllCanonical(names: seq<string>) {
    forall i | 0 <= i < |names| :: Canonical(names[i])
  }

  lemma SingleCanonical(part: string)
    requires ',' !in part
    ensures AllCanonical(Single(part))
  {
    var left, right := TrimSpaceMeans(part);
    assert forall c | c in TrimSpace(part) :: c in left + TrimSpace(part) + right;
  }

  lemma {:induction false} KeepCanonical(parts: seq<string>)
    requires forall i | 0 <= i < |parts| :: ',' !in parts[i]
    ensures AllCanonical(Keep(parts))
  {
    if parts != [] {
      KeepCanonical(parts[..|parts| - 1]);
      SingleCanonical(parts[|parts| - 1]);
    }
  }

  lemma {:induction false} TrimLeftDrops(n: nat, s: string)
    requires s == [] || !IsSpace(s[0])
    ensures TrimLeft(Blanks(n) + s) == s
  {
    if n == 0 {
      assert Blanks(0) + s == s;
    } else {
      assert (Blanks(n) + s)[1..] == Blanks(n - 1) + s;
      TrimLeftDrops(n - 1, s);
    }
  }

  lemma {:induction false} TrimRightDrops(s: string, n: nat)
    requires s == [] || !IsSpace(s[|s| - 1])
    ensures TrimRight(s + Blanks(n)) == s
  {
    if n == 0 {
      assert s + Blanks(0) == s;
    } else {
      var t := s + Blanks(n);
      assert t[..|t| - 1] == s + Blanks(n - 1);
      TrimRightDrops(s, n - 1);
    }
  }

  function Blanks(n: nat): string {
    seq(n, i => ' ')
  }

  lemma PaddedName(m: nat, name: string, n: nat)
    requires Canonical(name)
    ensures TrimSpace(Blanks(m) + name + Blanks(n)) == name
    ensures ',' !in Blanks(m) + name + Blanks(n)
  {
    assert Blanks(m) + name + Blanks(n) == Blanks(m) + (name + Blanks(n));
    TrimLeftDrops(m, name + Blanks(n));
    TrimRightDrops(name, n);
  }

  lemma NameAlone(m: nat, name: string, n: nat)
    requires Canonical(name)
    ensures Names(Blanks(m) + name + Blanks(n)) == [name]
  {
    PaddedName(m, name, n);
    NamesLaws(Blanks(m) + name + Blanks(n), "");
  }

  /** Blanks around names do not matter. */
  lemma ListOfTwo(a: string, b: string, i: nat, j: nat, m: nat, n: nat)
    requires Canonical(a) && Canonical(b)
    ensures Names((Blanks(i) + a + Blanks(j)) + "," + (Blanks(m) + b + Blanks(n))) == [a, b]
  {
    NameAlone(i, a, j);
    NameAlone(m, b, n);
    NamesLaws(Blanks(i) + a + Blanks(j), Blanks(m) + b + Blanks(n));
  }

  /** So "a, b" lists a and b. */
  lemma CommaBlank(a: string, b: string)
    requires Canonical(a) && Canonical(b)
    ensures Names(a + ", " + b) == [a, b]
  {
    ListOfTwo(a, b, 0, 0, 1, 0);
    assert Blanks(0) + a + Blanks(0) == a;
    assert Blanks(1) + b + Blanks(0) == " " + b;
    assert a + "," + (" " + b) == a + ", " + b;
  }

  /** What counts as white space: the six ASCII ones, and beyond ASCII exactly these. */
  lemma SpacesAre(c: char)
    ensures (c as int) < 0x80 ==> (IsSpace(c) <==> c in {' ', '\t', '\n', '\U{0B}', '\U{0C}', '\r'})
    ensures (c as int) >= 0x80 ==>
              (IsSpace(c) <==>
               || c in {'\U{85}', '\U{A0}', '\U{1680}', '\U{2028}', '\U{2029}', '\U{202F}', '\U{205F}', '\U{3000}'}
               || 0x2000 <= c as int <= 0x200A)
  {
  }

  /** Every parsed name is non-empty, free of commas, and has no white space at its ends. */
  lemma NamesCanonical(raw: string)
    ensures AllCanonical(Names(raw))
  {
    JoinSplit(raw);
    KeepCanonical(Split(raw));
  }

  lemma {:induction false} NamesOfJoin(names: seq<string>)
    requires AllCanonical(names)
    ensures Names(Join(names)) == names
  {
    if names == [] {
      NamesLaws("", "");
    } else {
      TrimmedStays(names[0]);
      if |names| == 1 {
        NamesLaws(names[0], "");
        assert names == [names[0]];
      } else {
        NamesOfJoin(names[1..]);
        NamesLaws(names[0], Join(names[1..]));
        assert names == [names[0]] + names[1..];
      }
    }
  }

  /** A list survives joining and parsing if and only if each of its names is canonical. */
  lemma RecoveredExactly(names: seq<string>)
    ensures Names(Join(names)) == names <==> AllCanonical(names)
  {
    if AllCanonical(names) {
      NamesOfJoin(names);
    } else {
      NamesCanonical(Join(names));
    }
  }

  /** Parsing the comma-join of a parsed list gives the same list. */
  lemma ParseIsIdempotent(raw: string)
    ensures Names(Join(Names(raw))) == Names(raw)
  {
    NamesCanonical(raw);
    NamesOfJoin(Names(raw));
  }
}
