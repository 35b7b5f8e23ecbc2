/** Column names in the order `sort.Strings` gives them. */
module Names {
  /** `a` sorts strictly before `b`. */
  predicate Before(a: string, b: string) {
    b != "" && (a == "" || a[0] < b[0] || (a[0] == b[0] && Before(a[1..], b[1..])))
  }

  lemma {:induction false} BeforeIsTotal(a: string, b: string)
    ensures a == b || Before(a, b) || Before(b, a)
  {
    if a != "" && b != "" && a[0] == b[0] {
      BeforeIsTotal(a[1..], b[1..]);
      assert a == [a[0]] + a[1..] && b == [b[0]] + b[1..];
    }
  }

  lemma {:induction false} BeforeIsTransitive(a: string, b: string, c: string)
    requires Before(a, b) && Before(b, c)
    ensures Before(a, c)
  {
    if a != "" && a[0] == b[0] && b[0] == c[0] {
      BeforeIsTransitive(a[1..], b[1..], c[1..]);
    }
  }

  predicate Ascending(names: seq<string>) {
    forall i, j | 0 <= i < j < |names| :: Before(names[i], names[j])
  }

  /** Inserts a new name at its place. */
  method Insert(names: seq<string>, name: string) returns (r: seq<string>)
    requires Ascending(names) && name !in names
    ensures Ascending(r) && |r| == |names| + 1
    ensures forall c :: c in r <==> c in names || c == name
  {
    var p := 0;
    while p < |names| && Before(names[p], name)
      invariant 0 <= p <= |names|
      invariant forall i | 0 <= i < p :: Before(names[i], name)
    {
      p := p + 1;
    }
    forall i | p <= i < |names| ensures Before(name, names[i]) {
      BeforeIsTotal(names[p], name);
      if p < i {
        BeforeIsTransitive(name, names[p], names[i]);
      }
    }
    r := names[..p] + [name] + names[p..];
    assert names == names[..p] + names[p..];
  }

  lemma {:induction false} BeforeIsStrict(a: string)
    ensures !Before(a, a)
  {
    if a != "" {
      BeforeIsStrict(a[1..]);
    }
  }

  lemma {:induction false} AscendingIsDistinct(names: seq<string>)
    requires Ascending(names)
    ensures forall i, j | 0 <= i < j < |names| :: names[i] != names[j]
  {
    forall i, j | 0 <= i < j < |names| ensures names[i] != names[j] {
      BeforeIsStrict(names[i]);
    }
  }

  /** sort.Strings on distinct names. */
  method Sort(names: seq<string>) returns (r: seq<string>)
    requires forall i, j | 0 <= i < j < |names| :: names[i] != names[j]
    ensures Ascending(r) && |r| == |names| && forall c :: c in r <==> c in names
  {
    r := [];
    for i := 0 to |names|
      invariant Ascending(r) && |r| == i
      invariant forall c :: c in r <==> c in names[..i]
    {
      assert names[..i + 1] == names[..i] + [names[i]];
      r := Insert(r, names[i]);
    }
    assert names[..|names|] == names;
  }
}
