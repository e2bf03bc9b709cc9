/**
  The registry of error-diffusion kernels, `ERR_DIST` of dists.py.
  `distribuicao` checks that the integer weights add up to the declared
  total, divides every weight by that total and binds the resulting
  matrix to the kernel's full name and to each `_`-separated part of
  it. Importing the module registers six kernels after `'NONE'`.
 */
module Kernels {
  import opened Grids

  /** The exception a failed registration raises. */
  datatype Error =
    | Ragged          // rows of different lengths: numpy's ValueError
    | SumMismatch     // `assert total == np.sum(data)` fails: AssertionError
    | DivisionByZero  // `x / total` with `total == 0`: ZeroDivisionError

  /** Name to kernel; `None` stands for "no diffusion". */
  type Registry = map<string, Option<seq<seq<real>>>>

  /** `ERR_DIST` before any registration. */
  const Initial: Registry := map["NONE" := None]

  // Splitting names

  /** `s.split(sep)`: the pieces between separators, empty pieces kept. */
  function Split(s: string, sep: char): (parts: seq<string>)
    ensures |parts| >= 1
    decreases |s|
  {
    if |s| == 0 then [""]
    else
      var rest := Split(s[1..], sep);
      if s[0] == sep then [""] + rest else [[s[0]] + rest[0]] + rest[1..]
  }

  /** `sep.join(parts)`. */
  function Join(parts: seq<string>, sep: char): string
    requires |parts| >= 1
    decreases |parts|
  {
    if |parts| == 1 then parts[0] else parts[0] + [sep] + Join(parts[1..], sep)
  }

  /** No piece holds the separator. */
  lemma {:induction false} SplitPiecesClean(s: string, sep: char)
    ensures forall i :: 0 <= i < |Split(s, sep)| ==> sep !in Split(s, sep)[i]
    decreases |s|
  {
    if |s| > 0 {
      SplitPiecesClean(s[1..], sep);
    }
  }

  /** There is one piece more than there are separators. */
  lemma {:induction false} SplitCount(s: string, sep: char)
    ensures |Split(s, sep)| == multiset(s)[sep] + 1
    decreases |s|
  {
    if |s| > 0 {
      SplitCount(s[1..], sep);
      assert s == [s[0]] + s[1..];
      assert multiset(s) == multiset{s[0]} + multiset(s[1..]);
    }
  }

  /** Joining the pieces gives the string back. */
  lemma {:induction false} SplitJoin(s: string, sep: char)
    ensures Join(Split(s, sep), sep) == s
    decreases |s|
  {
    if |s| > 0 {
      var rest := Split(s[1..], sep);
      SplitJoin(s[1..], sep);
      if s[0] == sep {
        assert ([""] + rest)[1..] == rest;
        assert Join([""] + rest, sep) == "" + [sep] + Join(rest, sep);
      } else {
        var parts := [[s[0]] + rest[0]] + rest[1..];
        assert parts[1..] == rest[1..];
        if |rest| > 1 {
          assert Join(rest, sep) == rest[0] + [sep] + Join(rest[1..], sep);
          assert Join(parts, sep) == [s[0]] + rest[0] + [sep] + Join(rest[1..], sep);
        }
      }
      assert s == [s[0]] + s[1..];
    }
  }

  /** A piece without the separator, followed by the separator, splits off as one piece. */
  lemma {:induction false} SplitPiece(p: string, t: string, sep: char)
    requires sep !in p
    ensures Split(p + [sep] + t, sep) == [p] + Split(t, sep)
    ensures Split(p, sep) == [p]
    decreases |p|
  {
    if |p| == 0 {
      assert p + [sep] + t == [sep] + t;
      assert ([sep] + t)[1..] == t;
    } else {
      SplitPiece(p[1..], t, sep);
      assert (p + [sep] + t)[1..] == p[1..] + [sep] + t;
      assert [p[0]] + p[1..] == p;
    }
  }

  /** Splitting a join of pieces without the separator gives the pieces back. */
  lemma {:induction false} JoinSplit(parts: seq<string>, sep: char)
    requires |parts| >= 1
    requires forall i :: 0 <= i < |parts| ==> sep !in parts[i]
    ensures Split(Join(parts, sep), sep) == parts
    decreases |parts|
  {
    SplitPiece(parts[0], "", sep);
    if |parts| > 1 {
      JoinSplit(parts[1..], sep);
      SplitPiece(parts[0], Join(parts[1..], sep), sep);
      assert [parts[0]] + parts[1..] == parts;
    }
  }

  /** The keys a kernel named `nome` is bound to. */
  function Names(nome: string): set<string> {
    {nome} + set p | p in Split(nome, '_')
  }

  /** A name without `_` is bound under itself only. */
  lemma PlainName(nome: string)
    requires '_' !in nome
    ensures Names(nome) == {nome}
  {
    SplitPiece(nome, "", '_');
  }

  // Checking and normalising the weights

  /** Sum of integers. */
  function IntSum(s: seq<int>): int {
    if |s| == 0 then 0 else s[0] + IntSum(s[1..])
  }

  /** `np.sum(data)` of an integer matrix, row by row. */
  function IntTotal(data: seq<seq<int>>): int {
    if |data| == 0 then 0 else IntSum(data[0]) + IntTotal(data[1..])
  }

  /** The matrix has at least one weight, so normalising it divides at least once. */
  predicate HasEntry(data: seq<seq<int>>) {
    exists i :: 0 <= i < |data| && |data[i]| > 0
  }

  /** `[x / total for x in row]`. */
  function Scale(row: seq<int>, total: int): (r: seq<real>)
    requires total != 0 || |row| == 0
    ensures |r| == |row|
  {
    seq(|row|, j requires 0 <= j < |row| => row[j] as real / total as real)
  }

  /** `[[x / total for x in row] for row in data]`. */
  function Normalise(data: seq<seq<int>>, total: int): (m: seq<seq<real>>)
    requires total != 0 || !HasEntry(data)
    ensures |m| == |data| && forall i :: 0 <= i < |data| ==> |m[i]| == |data[i]|
    ensures forall i, j :: 0 <= i < |data| && 0 <= j < |data[i]| ==> m[i][j] * total as real == data[i][j] as real
  {
    seq(|data|, i requires 0 <= i < |data| => Scale(data[i], total))
  }

  lemma AddQuotients(a: real, b: real, t: real)
    requires t != 0.0
    ensures a / t + b / t == (a + b) / t
  {
  }

  lemma {:induction false} ScaledSum(row: seq<int>, total: int)
    requires total != 0
    ensures Sum(Scale(row, total)) == IntSum(row) as real / total as real
    decreases |row|
  {
    if |row| > 0 {
      var first := row[0] as real / total as real;
      ScaledSum(row[1..], total);
      assert Scale(row, total) == [first] + Scale(row[1..], total);
      SumAppend([first], Scale(row[1..], total));
      assert Sum([first]) == Sum([first][..0]) + first;
      AddQuotients(row[0] as real, IntSum(row[1..]) as real, total as real);
    }
  }

  /** The total of a real matrix, row by row. */
  lemma {:induction false} TotalByRows(m: seq<seq<real>>)
    requires |m| > 0
    ensures Total(m) == Sum(m[0]) + Total(m[1..])
  {
    assert m == [m[0]] + m[1..];
    FlattenAppend([m[0]], m[1..]);
    assert [m[0]][..0] == [];
    assert Flatten([m[0]]) == m[0];
    assert Flatten(m) == m[0] + Flatten(m[1..]);
    SumAppend(m[0], Flatten(m[1..]));
  }

  lemma {:induction false} NormalisedTotal(data: seq<seq<int>>, total: int)
    requires total != 0
    ensures Total(Normalise(data, total)) == IntTotal(data) as real / total as real
    decreases |data|
  {
    var m := Normalise(data, total);
    if |data| == 0 {
      assert Flatten(m) == [];
    } else {
      NormalisedTotal(data[1..], total);
      assert m[1..] == Normalise(data[1..], total);
      TotalByRows(m);
      ScaledSum(data[0], total);
      AddQuotients(IntSum(data[0]) as real, IntTotal(data[1..]) as real, total as real);
    }
  }

  /** With exact arithmetic the normalised weights add up to one. */
  lemma NormalisedSumsToOne(data: seq<seq<int>>, total: int)
    requires total != 0 && total == IntTotal(data)
    ensures Total(Normalise(data, total)) == 1.0
  {
    NormalisedTotal(data, total);
    SelfQuotient(total as real);
  }

  lemma SelfQuotient(t: real)
    requires t != 0.0
    ensures t / t == 1.0
  {
  }

  // Registering

  /** `ERR_DIST[n] = dist` for every `n` in `names`, in order. */
  function Bind(reg: Registry, names: seq<string>, dist: seq<seq<real>>): (r: Registry)
    ensures forall k :: k in r <==> k in reg || k in names
    ensures forall k :: k in r ==> r[k] == if k in names then Some(dist) else reg[k]
    decreases |names|
  {
    if |names| == 0 then reg else Bind(reg[names[0] := Some(dist)], names[1..], dist)
  }

  /** `distribuicao(nome, total, data)` applied to the registry `reg`. */
  function Distribuicao(reg: Registry, nome: string, total: int, data: seq<seq<int>>): (r: Result<Registry, Error>)
    ensures !Rectangular(data) ==> r == Raise(Ragged)
    ensures Rectangular(data) && total != IntTotal(data) ==> r == Raise(SumMismatch)
    ensures Rectangular(data) && total == IntTotal(data) ==> (r == Raise(DivisionByZero) <==> total == 0 && HasEntry(data))
    ensures r.Ok? ==> forall k :: k in r.value <==> k in reg || k in Names(nome)
    ensures r.Ok? ==> forall k :: k in r.value && k !in Names(nome) ==> r.value[k] == reg[k]
    ensures r.Ok? ==> forall k :: k in Names(nome) ==> r.value[k] == Some(Normalise(data, total))
    ensures r.Ok? && total != 0 ==> Total(Normalise(data, total)) == 1.0
  {
    if !Rectangular(data) then Raise(Ragged)
    else if total != IntTotal(data) then Raise(SumMismatch)
    else if total == 0 && HasEntry(data) then Raise(DivisionByZero)
    else
      if total != 0 then NormalisedSumsToOne(data, total); Ok(Bind(reg, [nome] + Split(nome, '_'), Normalise(data, total)))
      else Ok(Bind(reg, [nome] + Split(nome, '_'), Normalise(data, total)))
  }

  // The shipped kernels

  /** One call of `distribuicao`. */
  datatype Definition = Definition(nome: string, total: int, data: seq<seq<int>>)

  /* The names with `_` are written as joins of their pieces: `FloydSteinbergName` is
     "FLOYD_STEINBERG" (see `Spelling`). */
  const FloydSteinbergName := Join(["FLOYD", "STEINBERG"], '_')
  const StevensonArceName := Join(["STEVENSON", "ARCE"], '_')
  const JarvisJudiceNinkeName := Join(["JARVIS", "JUDICE", "NINKE"], '_')
  const BurkesName := "BURKES"
  const SierraName := "SIERRA"
  const StuckiName := "STUCKI"

  const FloydSteinberg := Definition(FloydSteinbergName, 16, [
    [0, 0, 7],
    [3, 5, 1]])

  const StevensonArce := Definition(StevensonArceName, 200, [
    [ 0,  0,  0,  0,  0, 32,  0],
    [12,  0, 26,  0, 30,  0, 16],
    [ 0, 12,  0, 26,  0, 12,  0],
    [ 5,  0, 12,  0, 12,  0,  5]])

  const Burkes := Definition(BurkesName, 32, [
    [0, 0, 0, 8, 4],
    [2, 4, 8, 4, 2]])

  const Sierra := Definition(SierraName, 32, [
    [0, 0, 0, 5, 3],
    [2, 4, 5, 4, 2],
    [0, 2, 3, 2, 0]])

  const Stucki := Definition(StuckiName, 42, [
    [0, 0, 0, 8, 4],
    [2, 4, 8, 4, 2],
    [1, 2, 4, 2, 1]])

  const JarvisJudiceNinke := Definition(JarvisJudiceNinkeName, 48, [
    [0, 0, 0, 7, 5],
    [3, 5, 7, 5, 3],
    [1, 3, 5, 3, 1]])

  /** The six registrations, in the module's order. */
  const Shipped: seq<Definition> := [FloydSteinberg, StevensonArce, Burkes, Sierra, Stucki, JarvisJudiceNinke]

  /** The joined names spell the registered strings. */
  lemma Spelling()
    ensures FloydSteinbergName == "FLOYD_STEINBERG"
    ensures StevensonArceName == "STEVENSON_ARCE"
    ensures JarvisJudiceNinkeName == "JARVIS_JUDICE_NINKE"
  {
  }

  /** Every key the definitions bind. */
  function AllNames(defs: seq<Definition>): set<string>
    decreases |defs|
  {
    if |defs| == 0 then {} else Names(defs[0].nome) + AllNames(defs[1..])
  }

  /** The registrations run in order; the first failure ends the import. */
  function Load(reg: Registry, defs: seq<Definition>): (r: Result<Registry, Error>)
    ensures r.Ok? ==> forall k :: k in r.value <==> k in reg || k in AllNames(defs)
    ensures r.Ok? ==> forall k :: k in reg && k !in AllNames(defs) ==> r.value[k] == reg[k]
    ensures r.Ok? ==> forall k :: k in AllNames(defs) ==> r.value[k].Some?
    decreases |defs|
  {
    if |defs| == 0 then Ok(reg)
    else
      match Distribuicao(reg, defs[0].nome, defs[0].total, defs[0].data)
      case Raise(e) => Raise(e)
      case Ok(next) => Load(next, defs[1..])
  }

  /** `ERR_DIST` once the module is imported. */
  function ErrDist(): Result<Registry, Error> {
    Load(Initial, Shipped)
  }

  /** A registration that the checks let through. */
  predicate Accepted(d: Definition) {
    Rectangular(d.data) && d.total == IntTotal(d.data) && (d.total != 0 || !HasEntry(d.data))
  }

  /** When every registration passes its checks, the import succeeds. */
  lemma {:induction false} LoadAccepted(reg: Registry, defs: seq<Definition>)
    requires forall i :: 0 <= i < |defs| ==> Accepted(defs[i])
    ensures Load(reg, defs).Ok?
    decreases |defs|
  {
    if |defs| > 0 {
      var next := Distribuicao(reg, defs[0].nome, defs[0].total, defs[0].data);
      assert Accepted(defs[0]);
      LoadAccepted(next.value, defs[1..]);
    }
  }

  /** The length of a joined name: the pieces and one separator between each two. */
  lemma JoinTwoThree(a: string, b: string, c: string, sep: char)
    ensures |Join([a, b], sep)| == |a| + |b| + 1
    ensures |Join([a, b, c], sep)| == |a| + |b| + |c| + 2
  {
    assert [a, b][1..] == [b];
    assert [b, c][1..] == [c];
    assert [a, b, c][1..] == [b, c];
    assert Join([b, c], sep) == b + [sep] + c;
    assert Join([a, b, c], sep) == a + [sep] + Join([b, c], sep);
  }

  /** A name made of two different pieces is bound under itself and under each piece: three keys. */
  lemma NamesTwo(a: string, b: string, other: string)
    requires '_' !in a && '_' !in b && a != b
    requires other != a && other != b && other != Join([a, b], '_')
    ensures Names(Join([a, b], '_')) == {Join([a, b], '_'), a, b}
    ensures |Names(Join([a, b], '_'))| == 3
    ensures other !in Names(Join([a, b], '_'))
  {
    JoinSplit([a, b], '_');
    JoinTwoThree(a, b, "", '_');
    var n := Join([a, b], '_');
    assert n != a && n != b;
  }

  /** A name made of three different pieces is bound under itself and under each piece: four
      keys. */
  lemma NamesThree(a: string, b: string, c: string, other: string)
    requires '_' !in a && '_' !in b && '_' !in c && a != b && b != c && a != c
    requires other != a && other != b && other != c && other != Join([a, b, c], '_')
    ensures Names(Join([a, b, c], '_')) == {Join([a, b, c], '_'), a, b, c}
    ensures |Names(Join([a, b, c], '_'))| == 4
    ensures other !in Names(Join([a, b, c], '_'))
  {
    JoinSplit([a, b, c], '_');
    JoinTwoThree(a, b, c, '_');
    var n := Join([a, b, c], '_');
    assert n != a && n != b && n != c;
  }

  /** The kernel names and the keys each binds; none of them is `'NONE'`. */
  lemma FloydSteinbergNames()
    ensures Names(FloydSteinbergName) == {FloydSteinbergName, "FLOYD", "STEINBERG"}
    ensures |Names(FloydSteinbergName)| == 3
    ensures "NONE" !in Names(FloydSteinbergName)
  {
    JoinTwoThree("FLOYD", "STEINBERG", "", '_');
    NamesTwo("FLOYD", "STEINBERG", "NONE");
  }

  lemma StevensonArceNames()
    ensures Names(StevensonArceName) == {StevensonArceName, "STEVENSON", "ARCE"}
    ensures "NONE" !in Names(StevensonArceName)
  {
    assert "NONE"[0] != "ARCE"[0];
    JoinTwoThree("STEVENSON", "ARCE", "", '_');
    NamesTwo("STEVENSON", "ARCE", "NONE");
  }

  lemma JarvisJudiceNinkeNames()
    ensures Names(JarvisJudiceNinkeName) == {JarvisJudiceNinkeName, "JARVIS", "JUDICE", "NINKE"}
    ensures |Names(JarvisJudiceNinkeName)| == 4
    ensures "NONE" !in Names(JarvisJudiceNinkeName)
  {
    assert "JARVIS"[1] != "JUDICE"[1];
    JoinTwoThree("JARVIS", "JUDICE", "NINKE", '_');
    NamesThree("JARVIS", "JUDICE", "NINKE", "NONE");
  }

  /** A name without `_` binds one key, itself. */
  lemma PlainNameExcludes(nome: string, other: string)
    requires '_' !in nome && other != nome
    ensures Names(nome) == {nome}
    ensures other !in Names(nome)
  {
    PlainName(nome);
  }

  lemma PlainNames()
    ensures Names(BurkesName) == {BurkesName}
    ensures Names(SierraName) == {SierraName}
    ensures Names(StuckiName) == {StuckiName}
    ensures "NONE" !in Names(BurkesName) + Names(SierraName) + Names(StuckiName)
  {
    PlainNameExcludes(BurkesName, "NONE");
    PlainNameExcludes(SierraName, "NONE");
    PlainNameExcludes(StuckiName, "NONE");
  }

  /** The total of a matrix of four rows is the sum of the row sums. */
  lemma TotalOfFour(a: seq<int>, b: seq<int>, c: seq<int>, d: seq<int>)
    ensures IntTotal([a, b, c, d]) == IntSum(a) + IntSum(b) + IntSum(c) + IntSum(d)
  {
    assert [d][1..] == [];
    assert IntTotal([d]) == IntSum(d);
    assert [c, d][1..] == [d];
    assert IntTotal([c, d]) == IntSum(c) + IntSum(d);
    assert [b, c, d][1..] == [c, d];
    assert IntTotal([b, c, d]) == IntSum(b) + IntSum(c) + IntSum(d);
    assert [a, b, c, d][1..] == [b, c, d];
  }

  /** Each shipped kernel passes the checks of `distribuicao`. */
  lemma FloydSteinbergAccepted()
    ensures Accepted(FloydSteinberg)
  {
    assert IntTotal(FloydSteinberg.data) == 16;
  }

  lemma StevensonArceSum()
    ensures IntTotal(StevensonArce.data) == 200
  {
    TotalOfFour([ 0,  0,  0,  0,  0, 32,  0],
                [12,  0, 26,  0, 30,  0, 16],
                [ 0, 12,  0, 26,  0, 12,  0],
                [ 5,  0, 12,  0, 12,  0,  5]);
  }

  lemma StevensonArceAccepted()
    ensures Accepted(StevensonArce)
  {
    StevensonArceSum();
  }

  lemma BurkesAccepted()
    ensures Accepted(Burkes)
  {
    assert IntTotal(Burkes.data) == 32;
  }

  lemma SierraAccepted()
    ensures Accepted(Sierra)
  {
    assert IntTotal(Sierra.data) == 32;
  }

  lemma StuckiAccepted()
    ensures Accepted(Stucki)
  {
    assert IntTotal(Stucki.data) == 42;
  }

  lemma JarvisJudiceNinkeAccepted()
    ensures Accepted(JarvisJudiceNinke)
  {
    assert IntTotal(JarvisJudiceNinke.data) == 48;
  }

  /** Six registrations in a row bind the keys of each. */
  lemma AllNamesOfSix(a: Definition, b: Definition, c: Definition, d: Definition, e: Definition, f: Definition)
    ensures AllNames([a, b, c, d, e, f])
         == Names(a.nome) + Names(b.nome) + Names(c.nome) + Names(d.nome) + Names(e.nome) + Names(f.nome)
  {
    var s := [a, b, c, d, e, f];
    assert s[6..] == [];
    assert AllNames(s[5..]) == Names(f.nome) + AllNames(s[6..]);
    assert AllNames(s[4..]) == Names(e.nome) + AllNames(s[5..]);
    assert AllNames(s[3..]) == Names(d.nome) + AllNames(s[4..]);
    assert AllNames(s[2..]) == Names(c.nome) + AllNames(s[3..]);
    assert AllNames(s[1..]) == Names(b.nome) + AllNames(s[2..]);
    assert AllNames(s) == Names(a.nome) + AllNames(s[1..]);
  }

  lemma SixAccepted(a: Definition, b: Definition, c: Definition, d: Definition, e: Definition, f: Definition)
    requires Accepted(a) && Accepted(b) && Accepted(c) && Accepted(d) && Accepted(e) && Accepted(f)
    ensures forall i :: 0 <= i < 6 ==> Accepted([a, b, c, d, e, f][i])
  {
  }

  /** A load whose registrations all pass keeps a key none of them binds, and adds exactly the
      keys they bind. */
  lemma LoadKeeps(reg: Registry, defs: seq<Definition>, keys: set<string>, kept: string)
    requires forall i :: 0 <= i < |defs| ==> Accepted(defs[i])
    requires AllNames(defs) == keys && kept in reg && kept !in keys
    ensures Load(reg, defs).Ok?
    ensures Load(reg, defs).value[kept] == reg[kept]
    ensures Load(reg, defs).value.Keys == reg.Keys + keys
  {
    LoadAccepted(reg, defs);
  }

  /** The keys the six registrations bind; `'NONE'` is not among them. */
  lemma ShippedNames()
    ensures AllNames(Shipped) == Names(FloydSteinbergName) + Names(StevensonArceName)
      + Names(BurkesName) + Names(SierraName) + Names(StuckiName) + Names(JarvisJudiceNinkeName)
  {
    AllNamesOfSix(FloydSteinberg, StevensonArce, Burkes, Sierra, Stucki, JarvisJudiceNinke);
  }

  /** `'NONE'` is bound by none of the registrations. */
  lemma NoneUnbound()
    ensures "NONE" !in AllNames(Shipped)
  {
    ShippedNames();
    FloydSteinbergNames();
    StevensonArceNames();
    JarvisJudiceNinkeNames();
    PlainNames();
  }

  /** Every shipped registration passes its checks. */
  lemma ShippedAccepted()
    ensures forall i :: 0 <= i < |Shipped| ==> Accepted(Shipped[i])
  {
    FloydSteinbergAccepted();
    StevensonArceAccepted();
    BurkesAccepted();
    SierraAccepted();
    StuckiAccepted();
    JarvisJudiceNinkeAccepted();
    SixAccepted(FloydSteinberg, StevensonArce, Burkes, Sierra, Stucki, JarvisJudiceNinke);
  }

  /** Importing the module succeeds, binds every full name and every piece of one (the lemmas
      above list them), and leaves `'NONE'` mapped to no kernel. */
  lemma ShippedLoad()
    ensures ErrDist().Ok?
    ensures ErrDist().value.Keys == {"NONE"} + Names(FloydSteinbergName) + Names(StevensonArceName)
      + Names(BurkesName) + Names(SierraName) + Names(StuckiName) + Names(JarvisJudiceNinkeName)
    ensures ErrDist().value["NONE"] == None
  {
    ShippedAccepted();
    ShippedNames();
    NoneUnbound();
    LoadKeeps(Initial, Shipped, AllNames(Shipped), "NONE");
  }
}
