// The size of a persistence definition: the memoised computation, the plain recursive one, and when there is none.
module PdefSize {
  import opened Options
  import opened PdefText

  const MAX: nat := 0xffff_ffff_ffff_ffff

  // What a type's name stands for.
  datatype Kind = Fixed(size: nat) | Structure | Unknown

  function KindOf(d: Defs, name: string): Kind {
    if name == "int" || name == "float" then Fixed(4)
    else if name == "bool" || name in d.enums then Fixed(1)
    else if IsStringType(name) then
      match PositiveSize(name[7..|name| - 1])
      case None => Unknown
      case Some(n) => Fixed(n)
    else if name in d.structs then Structure
    else Unknown
  }

  // ---------- The plain recursive sum ----------

  // The size of a type that is used inside the active structures; a structure inside itself has none.
  function TypeSize(d: Defs, name: string, active: set<string>): (r: Option<nat>)
    decreases d.structs.Keys - active, 2, 0
  {
    match KindOf(d, name)
    case Fixed(n) => Some(n)
    case Unknown => None
    case Structure => if name in active then None else Sum(d, d.structs[name], |d.structs[name]|, active + {name})
  }

  // The first n fields, added up.
  function Sum(d: Defs, fs: seq<Field>, n: nat, active: set<string>): (r: Option<nat>)
    requires n <= |fs|
    decreases d.structs.Keys - active, 3, n
  {
    if n == 0 then Some(0) else
      match Sum(d, fs, n - 1, active)
      case None => None
      case Some(total) =>
        match FieldSize(d, fs[n - 1], active)
        case None => None
        case Some(bytes) => if bytes > MAX - total then None else Some(total + bytes)
  }

  function FieldSize(d: Defs, f: Field, active: set<string>): (r: Option<nat>)
    decreases d.structs.Keys - active, 3, 0
  {
    match Dimension(d.enums, f.name)
    case None => None
    case Some(count) =>
      match TypeSize(d, f.kind, active)
      case None => None
      case Some(unit) => if count > 0 && unit > MAX / count then None else Some(unit * count)
  }

  function Size(d: Defs): Option<nat> {
    Sum(d, d.top, |d.top|, {})
  }

  // ---------- The same without limits ----------

  function Layout(d: Defs, name: string, active: set<string>): nat
    decreases d.structs.Keys - active, 2, 0
  {
    match KindOf(d, name)
    case Fixed(n) => n
    case Unknown => 0
    case Structure => if name in active then 0 else LayoutSum(d, d.structs[name], |d.structs[name]|, active + {name})
  }

  function LayoutSum(d: Defs, fs: seq<Field>, n: nat, active: set<string>): nat
    requires n <= |fs|
    decreases d.structs.Keys - active, 3, n
  {
    if n == 0 then 0 else LayoutSum(d, fs, n - 1, active) + LayoutField(d, fs[n - 1], active)
  }

  function LayoutField(d: Defs, f: Field, active: set<string>): nat
    decreases d.structs.Keys - active, 3, 0
  {
    match Dimension(d.enums, f.name)
    case None => 0
    case Some(count) => Layout(d, f.kind, active) * count
  }

  // ---------- Paths through structures ----------

  predicate IsStruct(d: Defs, name: string) {
    KindOf(d, name).Structure?
  }

  // A field of structure a has the structure b for its type.
  ghost predicate Uses(d: Defs, a: string, b: string) {
    IsStruct(d, a) && IsStruct(d, b) && exists i :: 0 <= i < |d.structs[a]| && d.structs[a][i].kind == b
  }

  // Structures, each used by the one before it.
  ghost predicate Path(d: Defs, p: seq<string>) {
    && p != [] && IsStruct(d, p[0])
    && forall i :: 0 < i < |p| ==> Uses(d, p[i - 1], p[i])
  }

  function First(p: seq<string>): string {
    if p == [] then "" else p[0]
  }

  function Last(p: seq<string>): string {
    if p == [] then "" else p[|p| - 1]
  }

  lemma StructKnown(d: Defs, name: string)
    requires IsStruct(d, name)
    ensures name in d.structs
  {
  }

  lemma PathStep(d: Defs, a: string, p: seq<string>)
    requires Path(d, p) && Uses(d, a, p[0])
    ensures Path(d, [a] + p)
  {
    var q := [a] + p;
    forall i | 0 < i < |q| ensures Uses(d, q[i - 1], q[i]) {
      if i > 1 {
        assert q[i - 1] == p[i - 2] && q[i] == p[i - 1];
      }
    }
  }

  lemma PathRest(d: Defs, p: seq<string>)
    requires Path(d, p) && |p| > 1
    ensures Path(d, p[1..]) && Uses(d, p[0], p[1])
  {
    forall i | 0 < i < |p[1..]| ensures Uses(d, p[1..][i - 1], p[1..][i]) {
      assert p[1..][i - 1] == p[i] && p[1..][i] == p[i + 1];
    }
  }

  // ---------- What success says ----------

  // The field that makes one structure use another was measured.
  lemma {:induction false} FieldMeasured(d: Defs, fs: seq<Field>, n: nat, i: nat, active: set<string>)
    requires i < n <= |fs| && Sum(d, fs, n, active).Some?
    ensures FieldSize(d, fs[i], active).Some? && TypeSize(d, fs[i].kind, active).Some?
    decreases n
  {
    hide TypeSize;
    if i < n - 1 {
      FieldMeasured(d, fs, n - 1, i, active);
    }
  }

  // Everything a measured structure leads to is outside the active ones and measured too, and no path comes back.
  lemma {:induction false} MeasuredPath(d: Defs, p: seq<string>, active: set<string>)
    requires Path(d, p) && TypeSize(d, p[0], active).Some?
    ensures forall i :: 0 <= i < |p| ==> p[i] !in active
    ensures forall i, j :: 0 <= i < j < |p| ==> p[i] != p[j]
    decreases |p|
  {
    if |p| > 1 {
      PathRest(d, p);
      UsedMeasured(d, p[0], p[1], active);
      hide TypeSize, Path, Uses;
      MeasuredPath(d, p[1..], active + {p[0]});
      PathApart(p, active);
    }
  }

  lemma PathApart(p: seq<string>, active: set<string>)
    requires |p| > 1 && p[0] !in active
    requires forall i :: 0 <= i < |p[1..]| ==> p[1..][i] !in active + {p[0]}
    requires forall i, j :: 0 <= i < j < |p[1..]| ==> p[1..][i] != p[1..][j]
    ensures forall i :: 0 <= i < |p| ==> p[i] !in active
    ensures forall i, j :: 0 <= i < j < |p| ==> p[i] != p[j]
  {
    forall i | 0 <= i < |p| ensures p[i] !in active && (i > 0 ==> p[i] != p[0]) {
      if i > 0 {
        assert p[i] == p[1..][i - 1];
      }
    }
    forall i, j | 0 <= i < j < |p| ensures p[i] != p[j] {
      if i > 0 {
        assert p[i] == p[1..][i - 1] && p[j] == p[1..][j - 1];
      }
    }
  }

  lemma UsedMeasured(d: Defs, a: string, b: string, active: set<string>)
    requires Uses(d, a, b) && TypeSize(d, a, active).Some?
    ensures a !in active && TypeSize(d, b, active + {a}).Some?
  {
    var i :| 0 <= i < |d.structs[a]| && d.structs[a][i].kind == b;
    FieldMeasured(d, d.structs[a], |d.structs[a]|, i, active + {a});
  }

  // ---------- The active structures do not matter to a measured type ----------

  // No path from the type meets the set.
  ghost predicate Clear(d: Defs, name: string, active: set<string>) {
    forall p :: Path(d, p) && First(p) == name ==> Last(p) !in active
  }

  lemma ClearOf(d: Defs, name: string, active: set<string>, b: string)
    requires Clear(d, name, active) && Uses(d, name, b)
    ensures Clear(d, b, active)
  {
    forall p | Path(d, p) && First(p) == b ensures Last(p) !in active {
      PathStep(d, name, p);
      var q := [name] + p;
      assert First(q) == name && Last(q) == Last(p);
    }
  }

  lemma MeasuredClear(d: Defs, name: string, active: set<string>)
    requires IsStruct(d, name) && TypeSize(d, name, active).Some?
    ensures Clear(d, name, active)
  {
    hide TypeSize, Path;
    forall p | Path(d, p) && First(p) == name ensures Last(p) !in active {
      PathThere(d, p);
      MeasuredPath(d, p, active);
    }
  }

  lemma PathThere(d: Defs, p: seq<string>)
    requires Path(d, p)
    ensures p != []
  {
  }

  lemma ClearOfBoth(d: Defs, name: string, a: set<string>, b: set<string>)
    requires Clear(d, name, a) && Clear(d, name, b)
    ensures Clear(d, name, a + b)
  {
    hide Path;
    forall p | Path(d, p) && First(p) == name ensures Last(p) !in a + b {
      PathThere(d, p);
    }
  }

  lemma {:induction false} SameSize(d: Defs, name: string, active: set<string>, other: set<string>)
    requires TypeSize(d, name, active).Some? && (IsStruct(d, name) ==> Clear(d, name, other))
    ensures TypeSize(d, name, other) == TypeSize(d, name, active)
    decreases d.structs.Keys - active, 2
  {
    if IsStruct(d, name) {
      StructKnown(d, name);
      SelfClear(d, name, other);
      hide Clear, Uses, Path;
      SameSum(d, name, |d.structs[name]|, active + {name}, other);
    }
  }

  lemma SelfClear(d: Defs, name: string, active: set<string>)
    requires IsStruct(d, name) && Clear(d, name, active)
    ensures name !in active
  {
    assert Path(d, [name]) && First([name]) == name && Last([name]) == name;
  }

  lemma UsedClear(d: Defs, name: string, i: nat, inner: set<string>, other: set<string>)
    requires IsStruct(d, name) && name in d.structs && name in inner && i < |d.structs[name]|
    requires Clear(d, name, other) && TypeSize(d, d.structs[name][i].kind, inner).Some?
    ensures IsStruct(d, d.structs[name][i].kind) ==> Clear(d, d.structs[name][i].kind, other + {name})
  {
    hide Clear, Path, TypeSize, KindOf;
    var b := d.structs[name][i].kind;
    if IsStruct(d, b) {
      assert Uses(d, name, b);
      ClearOf(d, name, other, b);
      MeasuredClear(d, b, inner);
      ClearSubset(d, b, inner, {name});
      ClearOfBoth(d, b, other, {name});
    }
  }

  lemma {:induction false} SameSum(d: Defs, name: string, n: nat, inner: set<string>, other: set<string>)
    requires IsStruct(d, name) && name in d.structs && name in inner && n <= |d.structs[name]|
    requires Clear(d, name, other) && Sum(d, d.structs[name], n, inner).Some?
    ensures Sum(d, d.structs[name], n, other + {name}) == Sum(d, d.structs[name], n, inner)
    decreases d.structs.Keys - inner, 3, n
  {
    hide Clear, Uses, Path, IsStruct, Dimension;
    if n > 0 {
      var fs := d.structs[name];
      SameSum(d, name, n - 1, inner, other);
      FieldMeasured(d, fs, n, n - 1, inner);
      UsedClear(d, name, n - 1, inner, other);
      hide KindOf;
      SameSize(d, fs[n - 1].kind, inner, other + {name});
    }
  }

  lemma ClearSubset(d: Defs, name: string, a: set<string>, b: set<string>)
    requires Clear(d, name, a) && b <= a
    ensures Clear(d, name, b)
  {
    hide Path;
    forall p | Path(d, p) && First(p) == name ensures Last(p) !in b {
      PathThere(d, p);
    }
  }

  // A measured size is the layout.
  lemma {:induction false} SizeIsLayout(d: Defs, name: string, active: set<string>)
    requires TypeSize(d, name, active).Some?
    ensures TypeSize(d, name, active).value == Layout(d, name, active)
    decreases d.structs.Keys - active, 2
  {
    if IsStruct(d, name) {
      SumIsLayout(d, d.structs[name], |d.structs[name]|, active + {name});
    }
  }

  lemma {:induction false} SumIsLayout(d: Defs, fs: seq<Field>, n: nat, active: set<string>)
    requires n <= |fs| && Sum(d, fs, n, active).Some?
    ensures Sum(d, fs, n, active).value == LayoutSum(d, fs, n, active) <= MAX
    decreases d.structs.Keys - active, 3, n
  {
    if n > 0 {
      SumIsLayout(d, fs, n - 1, active);
      FieldMeasured(d, fs, n, n - 1, active);
      SizeIsLayout(d, fs[n - 1].kind, active);
    }
  }

  // ---------- What failure says ----------

  predicate FieldValid(d: Defs, f: Field) {
    Dimension(d.enums, f.name).Some? && !KindOf(d, f.kind).Unknown?
  }

  // The structure's own fields are wrong, or its layout is too large.
  ghost predicate Faulty(d: Defs, name: string) {
    && IsStruct(d, name)
    && ((exists i :: 0 <= i < |d.structs[name]| && !FieldValid(d, d.structs[name][i])) || Layout(d, name, {}) > MAX)
  }

  // A path that ends in a faulty structure, or in one it has been through before.
  ghost predicate Bad(d: Defs, p: seq<string>) {
    Path(d, p) && (Faulty(d, Last(p)) || Last(p) in p[..|p| - 1])
  }

  lemma BadStep(d: Defs, a: string, p: seq<string>)
    requires Uses(d, a, First(p)) && Path(d, p)
    ensures Path(d, [a] + p) && First([a] + p) == a && Last([a] + p) == Last(p)
    ensures Bad(d, p) || Last(p) == a ==> Bad(d, [a] + p)
  {
    hide Faulty;
    PathStep(d, a, p);
    var q := [a] + p;
    assert q[..|q| - 1] == [a] + p[..|p| - 1];
  }

  // The field at which a sum stops.
  lemma {:induction false} StopsAt(d: Defs, fs: seq<Field>, n: nat, active: set<string>) returns (i: nat)
    requires n <= |fs| && Sum(d, fs, n, active).None?
    ensures i < n && Sum(d, fs, i, active).Some? && Sum(d, fs, i + 1, active).None?
    decreases n
  {
    hide FieldSize;
    if Sum(d, fs, n - 1, active).None? {
      i := StopsAt(d, fs, n - 1, active);
    } else {
      i := n - 1;
    }
  }

  lemma {:induction false} LayoutGrows(d: Defs, fs: seq<Field>, n: nat, m: nat, active: set<string>)
    requires n <= m <= |fs|
    ensures LayoutSum(d, fs, n, active) <= LayoutSum(d, fs, m, active)
    decreases m
  {
    hide LayoutField;
    if n < m {
      LayoutGrows(d, fs, n, m - 1, active);
    }
  }

  // A sum that stops at a field with a size is too large.
  lemma TooLarge(d: Defs, fs: seq<Field>, i: nat, active: set<string>)
    requires i < |fs| && Sum(d, fs, i, active).Some? && Sum(d, fs, i + 1, active).None?
    requires FieldValid(d, fs[i]) && TypeSize(d, fs[i].kind, active).Some?
    ensures LayoutSum(d, fs, |fs|, active) > MAX
  {
    hide TypeSize, Layout, KindOf, Dimension;
    SumIsLayout(d, fs, i, active);
    SizeIsLayout(d, fs[i].kind, active);
    LayoutGrows(d, fs, i + 1, |fs|, active);
    var count, unit := Dimension(d.enums, fs[i].name).value, TypeSize(d, fs[i].kind, active).value;
    if count > 0 && unit > MAX / count {
      OverQuotient(unit, count);
    }
  }

  lemma OverQuotient(unit: nat, count: nat)
    requires count > 0 && unit > MAX / count
    ensures unit * count > MAX
  {
    var q := MAX / count;
    assert MAX == count * q + MAX % count;
    assert (q + 1) * count == count * q + count;
    assert unit * count - (q + 1) * count == (unit - (q + 1)) * count;
  }

  lemma ClearNothing(d: Defs, name: string)
    ensures Clear(d, name, {})
  {
  }

  // The plain sum fails only at the end of a bad path, or at a structure already active.
  lemma {:induction false} FailsBadly(d: Defs, name: string, active: set<string>) returns (p: seq<string>)
    requires IsStruct(d, name) && TypeSize(d, name, active).None?
    ensures Path(d, p) && First(p) == name && (Last(p) in active || Bad(d, p))
    decreases d.structs.Keys - active
  {
    StructKnown(d, name);
    p := [name];
    if name !in active {
      var fs, inner := d.structs[name], active + {name};
      StructFails(d, name, active);
      var i := StopsAt(d, fs, |fs|, inner);
      hide TypeSize, Sum, Layout;
      if FieldValid(d, fs[i]) {
        if TypeSize(d, fs[i].kind, inner).None? {
          NotFixed(d, fs[i].kind, inner);
          var q := FailsBadly(d, fs[i].kind, inner);
          assert Uses(d, name, fs[i].kind);
          hide Path, Bad, Uses;
          BadStep(d, name, q);
          p := [name] + q;
        } else {
          StructTooLarge(d, name, i, inner);
        }
      }
    }
  }

  lemma StructFails(d: Defs, name: string, active: set<string>)
    requires IsStruct(d, name) && name in d.structs && TypeSize(d, name, active).None? && name !in active
    ensures Sum(d, d.structs[name], |d.structs[name]|, active + {name}).None?
  {
    hide Sum;
  }

  lemma NotFixed(d: Defs, name: string, active: set<string>)
    requires TypeSize(d, name, active).None? && !KindOf(d, name).Unknown?
    ensures IsStruct(d, name)
  {
    hide Sum;
  }

  lemma StructTooLarge(d: Defs, name: string, i: nat, inner: set<string>)
    requires IsStruct(d, name) && name in d.structs && name in inner && i < |d.structs[name]|
    requires Sum(d, d.structs[name], i, inner).Some? && Sum(d, d.structs[name], i + 1, inner).None?
    requires FieldValid(d, d.structs[name][i]) && TypeSize(d, d.structs[name][i].kind, inner).Some?
    ensures Layout(d, name, {}) > MAX
  {
    hide TypeSize, Clear, Path, Uses;
    var fs := d.structs[name];
    var one := {name};
    assert {} + one == one;
    ClearNothing(d, name);
    SameSum(d, name, i, inner, {});
    UsedClear(d, name, i, inner, {});
    SameSize(d, fs[i].kind, inner, one);
    SameStop(d, fs, i, inner, one);
    hide Sum, FieldValid;
    TooLarge(d, fs, i, one);
    StructLayout(d, name);
  }

  lemma SameStop(d: Defs, fs: seq<Field>, i: nat, a: set<string>, b: set<string>)
    requires i < |fs| && Sum(d, fs, i, a) == Sum(d, fs, i, b) && Sum(d, fs, i, a).Some?
    requires TypeSize(d, fs[i].kind, a) == TypeSize(d, fs[i].kind, b)
    ensures Sum(d, fs, i + 1, a) == Sum(d, fs, i + 1, b)
  {
    hide TypeSize, Dimension;
  }

  lemma StructLayout(d: Defs, name: string)
    requires IsStruct(d, name) && name in d.structs
    ensures Layout(d, name, {}) == LayoutSum(d, d.structs[name], |d.structs[name]|, {name})
  {
    hide LayoutSum;
    assert {} + {name} == {name};
  }

  // The last structure of a path from a measured one is measured.
  lemma {:induction false} EndMeasured(d: Defs, p: seq<string>, active: set<string>) returns (a: set<string>)
    requires Path(d, p) && TypeSize(d, First(p), active).Some?
    ensures TypeSize(d, Last(p), a).Some? && IsStruct(d, Last(p))
    decreases |p|
  {
    a := active;
    if |p| > 1 {
      PathRest(d, p);
      UsedMeasured(d, p[0], p[1], active);
      hide TypeSize, Path, Uses;
      a := EndMeasured(d, p[1..], active + {p[0]});
    }
  }

  lemma MeasuredSound(d: Defs, name: string, active: set<string>)
    requires IsStruct(d, name) && TypeSize(d, name, active).Some?
    ensures !Faulty(d, name)
  {
    StructKnown(d, name);
    ClearNothing(d, name);
    SameSize(d, name, active, {});
    SizeIsLayout(d, name, {});
    var fs := d.structs[name];
    StructSum(d, name, active);
    hide TypeSize, Layout, KindOf;
    SumIsLayout(d, fs, |fs|, active + {name});
    forall i | 0 <= i < |fs| ensures FieldValid(d, fs[i]) {
      FieldMeasured(d, fs, |fs|, i, active + {name});
      KnownKind(d, fs[i].kind, active + {name});
    }
  }

  lemma StructSum(d: Defs, name: string, active: set<string>)
    requires IsStruct(d, name) && name in d.structs && TypeSize(d, name, active).Some?
    ensures Sum(d, d.structs[name], |d.structs[name]|, active + {name}) == TypeSize(d, name, active)
  {
    hide Sum;
  }

  lemma KnownKind(d: Defs, name: string, active: set<string>)
    requires TypeSize(d, name, active).Some?
    ensures !KindOf(d, name).Unknown?
  {
    hide Sum;
  }

  // A structure has no size exactly when a path from it goes wrong or comes back.
  lemma StructExactly(d: Defs, name: string)
    requires IsStruct(d, name)
    ensures TypeSize(d, name, {}).None? <==> exists p :: First(p) == name && Bad(d, p)
  {
    if TypeSize(d, name, {}).None? {
      var p := FailsBadly(d, name, {});
      assert First(p) == name && Bad(d, p);
    } else {
      hide TypeSize, Faulty;
      forall p | First(p) == name && Bad(d, p) ensures false {
        MeasuredPath(d, p, {});
        var a := EndMeasured(d, p, {});
        MeasuredSound(d, Last(p), a);
      }
    }
  }

  // A field with a wrong name, an unknown type, or a structure from which a path goes wrong or comes back.
  ghost predicate BadField(d: Defs, f: Field) {
    !FieldValid(d, f) || (IsStruct(d, f.kind) && exists p :: First(p) == f.kind && Bad(d, p))
  }

  // The size is the layout sum of the top fields; it fails exactly on a bad field or when the sum is too large.
  lemma SizeExactly(d: Defs)
    ensures Size(d) ==
            if (exists i :: 0 <= i < |d.top| && BadField(d, d.top[i])) || LayoutSum(d, d.top, |d.top|, {}) > MAX then None
            else Some(LayoutSum(d, d.top, |d.top|, {}))
  {
    hide TypeSize, Layout, KindOf, IsStruct, Bad;
    var fs := d.top;
    if Size(d).Some? {
      SumIsLayout(d, fs, |fs|, {});
      forall i | 0 <= i < |fs| ensures !BadField(d, fs[i]) {
        FieldMeasured(d, fs, |fs|, i, {});
        KnownKind(d, fs[i].kind, {});
        if IsStruct(d, fs[i].kind) {
          StructExactly(d, fs[i].kind);
        }
      }
    } else {
      var i := StopsAt(d, fs, |fs|, {});
      if FieldValid(d, fs[i]) {
        if TypeSize(d, fs[i].kind, {}).None? {
          NotFixed(d, fs[i].kind, {});
          StructExactly(d, fs[i].kind);
          assert BadField(d, fs[i]);
        } else {
          TooLarge(d, fs, i, {});
        }
      } else {
        assert BadField(d, fs[i]);
      }
    }
  }

  // ---------- The code ----------

  // Types that only lead to each other.
  ghost predicate ClosedSet(d: Defs, s: set<string>) {
    forall a, b :: a in s && Uses(d, a, b) ==> b in s
  }

  lemma {:induction false} StaysIn(d: Defs, s: set<string>, p: seq<string>)
    requires ClosedSet(d, s) && Path(d, p) && First(p) in s
    ensures Last(p) in s
    decreases |p|
  {
    if |p| > 1 {
      PathRest(d, p);
      hide Path, Uses;
      StaysIn(d, s, p[1..]);
    }
  }

  lemma ClosedClear(d: Defs, s: set<string>, name: string, active: set<string>)
    requires ClosedSet(d, s) && name in s && s !! active
    ensures Clear(d, name, active)
  {
    hide Path, Uses, ClosedSet;
    forall p | Path(d, p) && First(p) == name ensures Last(p) !in active {
      StaysIn(d, s, p);
    }
  }

  // What may be kept for later: sizes that hold wherever the type is used.
  ghost predicate Sound(d: Defs, cache: map<string, nat>, active: set<string>) {
    && (forall t :: t in cache ==> IsStruct(d, t) && TypeSize(d, t, {}) == Some(cache[t]))
    && ClosedSet(d, cache.Keys) && cache.Keys !! active
  }

  lemma CachedSize(d: Defs, cache: map<string, nat>, active: set<string>, name: string)
    requires Sound(d, cache, active) && name in cache
    ensures TypeSize(d, name, active) == Some(cache[name]) && IsStruct(d, name)
  {
    hide TypeSize, Clear, ClosedSet;
    ClosedClear(d, cache.Keys, name, active);
    SameSize(d, name, {}, active);
  }

  // A type just measured can be kept.
  lemma KeepsSound(d: Defs, cache: map<string, nat>, active: set<string>, name: string, total: nat)
    requires IsStruct(d, name) && name in d.structs && name !in active
    requires Sound(d, cache, active + {name}) && TypeSize(d, name, active) == Some(total)
    requires forall i :: 0 <= i < |d.structs[name]| && IsStruct(d, d.structs[name][i].kind) ==> d.structs[name][i].kind in cache
    ensures Sound(d, cache[name := total], active)
  {
    hide TypeSize, Clear, IsStruct;
    ClearNothing(d, name);
    SameSize(d, name, active, {});
    forall a, b | a in cache[name := total].Keys && Uses(d, a, b) ensures b in cache[name := total].Keys {
      if a == name && a !in cache {
        var i :| 0 <= i < |d.structs[a]| && d.structs[a][i].kind == b;
      }
    }
  }

  class Sizer {
    const d: Defs
    var cache: map<string, nat>
    var active: set<string>

    ghost predicate Valid()
      reads this
    {
      Sound(d, cache, active)
    }

    constructor (d: Defs)
      ensures this.d == d && Valid() && active == {}
    {
      this.d := d;
      cache, active := map[], {};
    }

    // The size of a type; computed once, whatever it is used inside.
    method TypeSizeOf(name: string) returns (ok: bool, size: nat)
      requires Valid()
      modifies this
      ensures ok <==> TypeSize(d, name, old(active)).Some?
      ensures ok ==> TypeSize(d, name, old(active)) == Some(size)
      ensures ok ==> Valid() && active == old(active) && old(cache.Keys) <= cache.Keys
      ensures ok && IsStruct(d, name) ==> name in cache
      decreases d.structs.Keys - active, 2, 0
    {
      hide Sound, Sum;
      size := 0;
      match KindOf(d, name) {
        case Fixed(n) =>
          return true, n;
        case Unknown =>
          NotCached(d, cache, active, name);
          return false, 0;
        case Structure =>
      }
      if name in cache {
        CachedSize(d, cache, active, name);
        return true, cache[name];
      }
      if name in active {
        return false, 0;
      }
      ok, size := Measure(name);
    }

    method Measure(name: string) returns (ok: bool, size: nat)
      requires Valid() && IsStruct(d, name) && name in d.structs && name !in active && name !in cache
      modifies this
      ensures ok <==> TypeSize(d, name, old(active)).Some?
      ensures ok ==> TypeSize(d, name, old(active)) == Some(size)
      ensures ok ==> Valid() && active == old(active) && old(cache.Keys) <= cache.Keys && name in cache
      decreases d.structs.Keys - active, 1, 0
    {
      hide Sum;
      ghost var outer := active;
      active := active + {name};
      size := 0;
      ok, size := SumOf(d.structs[name]);
      if !ok {
        return;
      }
      hide Sound;
      KeepsSound(d, cache, outer, name, size);
      active := active - {name};
      assert active == outer;
      cache := cache[name := size];
    }

    // The fields of a structure, or of the whole definition, added up.
    method SumOf(fields: seq<Field>) returns (ok: bool, total: nat)
      requires Valid()
      modifies this
      ensures ok <==> Sum(d, fields, |fields|, old(active)).Some?
      ensures ok ==> Sum(d, fields, |fields|, old(active)) == Some(total)
      ensures ok ==> Valid() && active == old(active) && old(cache.Keys) <= cache.Keys
      ensures ok ==> forall i :: 0 <= i < |fields| && IsStruct(d, fields[i].kind) ==> fields[i].kind in cache
      decreases d.structs.Keys - active, 4, 0
    {
      hide Sound, TypeSize, IsStruct, FieldSize;
      total := 0;
      for i := 0 to |fields|
        invariant Valid() && active == old(active) && old(cache.Keys) <= cache.Keys
        invariant Sum(d, fields, i, active) == Some(total)
        invariant forall k :: 0 <= k < i && IsStruct(d, fields[k].kind) ==> fields[k].kind in cache
      {
        var bytes;
        ok, bytes := FieldSizeOf(fields[i]);
        if !ok || bytes > MAX - total {
          SumStays(d, fields, i + 1, |fields|, old(active));
          return false, 0;
        }
        total := total + bytes;
      }
      ok := true;
    }

    method FieldSizeOf(f: Field) returns (ok: bool, size: nat)
      requires Valid()
      modifies this
      ensures ok <==> FieldSize(d, f, old(active)).Some?
      ensures ok ==> FieldSize(d, f, old(active)) == Some(size)
      ensures ok ==> Valid() && active == old(active) && old(cache.Keys) <= cache.Keys
      ensures ok && IsStruct(d, f.kind) ==> f.kind in cache
      decreases d.structs.Keys - active, 3, 0
    {
      hide Sound, TypeSize, IsStruct, Dimension;
      var count := Dimension(d.enums, f.name);
      if count.None? {
        return false, 0;
      }
      var unit;
      ok, unit := TypeSizeOf(f.kind);
      if !ok {
        return false, 0;
      }
      if count.value > 0 && unit > MAX / count.value {
        return false, 0;
      }
      size := unit * count.value;
    }
  }

  lemma NotCached(d: Defs, cache: map<string, nat>, active: set<string>, name: string)
    requires Sound(d, cache, active) && KindOf(d, name).Unknown?
    ensures name !in cache
  {
  }

  lemma {:induction false} SumStays(d: Defs, fs: seq<Field>, n: nat, m: nat, active: set<string>)
    requires n <= m <= |fs| && Sum(d, fs, n, active).None?
    ensures Sum(d, fs, m, active).None?
    decreases m
  {
    hide FieldSize;
    if n < m {
      SumStays(d, fs, n, m - 1, active);
    }
  }

  // The size of a whole definition.
  method DefinitionSize(d: Defs) returns (ok: bool, result: nat)
    ensures ok <==> Size(d).Some?
    ensures ok ==> Size(d) == Some(result)
  {
    var sizer := new Sizer(d);
    ok, result := sizer.SumOf(d.top);
  }
}
