/** Who owns the exported executables, in every run of registrations and releases. */
module RegistrySafety {
  import opened CStrings
  import opened Registry

  // ---- Multisets of executables ----

  lemma {:induction false} ExportedAppend(packages: seq<Package>, p: Package)
    ensures Exported(packages + [p]) == Exported(packages) + multiset(p.exec)
  {
    if packages != [] {
      assert (packages + [p])[1..] == packages[1..] + [p];
      ExportedAppend(packages[1..], p);
    }
  }

  lemma {:induction false} ExportedWithout(packages: seq<Package>, i: nat)
    requires i < |packages|
    ensures Exported(packages) == Exported(packages[..i] + packages[i + 1..]) + multiset(packages[i].exec)
  {
    if i > 0 {
      assert (packages[..i] + packages[i + 1..])[1..] == packages[1..][..i - 1] + packages[1..][i..];
      ExportedWithout(packages[1..], i - 1);
    } else {
      assert packages[..0] + packages[1..] == packages[1..];
    }
  }

  lemma {:induction false} ExportedSplit(packages: seq<Package>, device: string)
    ensures Exported(NotOn(packages, device)) <= Exported(packages)
    ensures forall n ::
              n in ExecsOn(packages, device) <==> (Exported(packages) - Exported(NotOn(packages, device)))[n] > 0
  {
    if packages != [] {
      ExportedSplit(packages[1..], device);
      var rest := NotOn(packages[1..], device);
      if packages[0].device != device {
        assert ([packages[0]] + rest)[1..] == rest;
      } else {
        assert [] + rest == rest;
      }
    }
  }

  // ---- Exporting ----

  /** Exporting adds names that were free, each once. */
  lemma {:induction false} ExportAllFresh(toks: seq<string>, own: seq<string>, files: set<string>)
    requires forall n | n in own :: n in files && multiset(own)[n] == 1
    ensures var (own', files') := ExportAll(toks, own, files);
            && own <= own' && (forall n | n in own' :: n in files' && multiset(own')[n] == 1)
            && (forall n :: n in files' <==> n in files || n in own')
            && (forall n | n in own' && n !in own :: n !in files)
    decreases |toks|
  {
    if toks != [] {
      var name := FileName(toks[0]);
      if DirectoryName(name) || name in files {
        ExportAllFresh(toks[1..], own, files);
      } else {
        assert multiset(own + [name]) == multiset(own) + multiset{name};
        ExportAllFresh(toks[1..], own + [name], files + {name});
      }
    }
  }

  lemma {:induction false} ExportListsFresh(execs: seq<string>, own: seq<string>, files: set<string>)
    requires forall n | n in own :: n in files && multiset(own)[n] == 1
    ensures var (own', files') := ExportLists(execs, own, files);
            && own <= own' && (forall n | n in own' :: n in files' && multiset(own')[n] == 1)
            && (forall n :: n in files' <==> n in files || n in own')
            && (forall n | n in own' && n !in own :: n !in files)
    decreases |execs|
  {
    if execs != [] {
      var (own', files') := ExportAll(Tokens(execs[0]), own, files);
      ExportAllFresh(Tokens(execs[0]), own, files);
      ExportListsFresh(execs[1..], own', files');
    }
  }

  // ---- Steps ----

  datatype Step =
    | Appears(p: Package, execs: seq<string>)
    | PathGone(path: string)
    | MountGone(device: string)

  /** The effect of package_register, package_release_path and package_release_mount. */
  function Apply(packages: seq<Package>, files: set<string>, s: Step): (seq<Package>, set<string>) {
    match s
    case Appears(p, execs) =>
      var (ps, fs, _) := Registered(packages, files, p, execs);
      (ps, fs)
    case PathGone(path) =>
      var n := PathIndex(packages, OneSlash(path));
      if n < 0 then (packages, files)
      else (packages[..n] + packages[n + 1..], files - set x | x in packages[n].exec)
    case MountGone(device) =>
      (NotOn(packages, device), files - ExecsOn(packages, device))
  }

  lemma RegisterKeeps(packages: seq<Package>, files: set<string>, foreign: set<string>, p: Package,
                      execs: seq<string>)
    requires Consistent(packages, files, foreign)
    ensures var (ps, fs, _) := Registered(packages, files, p, execs); Consistent(ps, fs, foreign)
  {
    var (own, names) := ExportLists(execs, [], files);
    ExportListsFresh(execs, [], files);
    if !(packages != [] && !ValidId(p.id)) && IdIndex(packages, p.id) < 0 {
      AppendKeeps(packages, files, foreign, p.(path := OneSlash(p.path), exec := own), names);
    }
  }

  lemma AppendKeeps(packages: seq<Package>, files: set<string>, foreign: set<string>, p: Package, names: set<string>)
    requires Consistent(packages, files, foreign)
    requires forall q | q in packages :: q.id != p.id
    requires forall n | n in p.exec :: multiset(p.exec)[n] == 1 && n !in files
    requires forall n :: n in names <==> n in files || n in p.exec
    ensures Consistent(packages + [p], names, foreign)
  {
    ExportedAppend(packages, p);
    forall n
      ensures Exported(packages + [p])[n] == Exported(packages)[n] + (if n in p.exec then 1 else 0)
    {
    }
  }

  /** Removing a package removes exactly its own executables: they were all there, and every other
      file of the directory stays. */
  lemma KillRemovesOwn(packages: seq<Package>, files: set<string>, foreign: set<string>, i: nat)
    requires Consistent(packages, files, foreign) && i < |packages|
    ensures var rest := packages[..i] + packages[i + 1..];
            var own := set n | n in packages[i].exec;
            && Consistent(rest, files - own, foreign)
            && own <= files && own !! foreign
            && (forall q, n | q in rest && n in q.exec :: n in files - own)
  {
    var rest := packages[..i] + packages[i + 1..];
    ExportedWithout(packages, i);
    forall n
      ensures n in packages[i].exec <==> multiset(packages[i].exec)[n] > 0
      ensures Exported(packages)[n] == Exported(rest)[n] + multiset(packages[i].exec)[n]
    {
    }
    forall q, n | q in rest && n in q.exec
      ensures n in Exported(rest)
    {
      ExecIsExported(rest, q, n);
    }
  }

  lemma {:induction false} ExecIsExported(packages: seq<Package>, q: Package, n: string)
    requires q in packages && n in q.exec
    ensures n in Exported(packages)
  {
    if packages[0] != q {
      assert q in packages[1..];
      ExecIsExported(packages[1..], q, n);
    }
  }

  lemma {:induction false} NotOnIds(packages: seq<Package>, device: string)
    requires DistinctIds(packages)
    ensures DistinctIds(NotOn(packages, device))
    ensures forall q :: q in NotOn(packages, device) <==> q in packages && q.device != device
  {
    if packages != [] {
      assert packages == [packages[0]] + packages[1..];
      assert forall i :: 0 <= i < |packages| - 1 ==> packages[1..][i] == packages[i + 1];
      NotOnIds(packages[1..], device);
      forall q | q in packages[1..]
        ensures q.id != packages[0].id
      {
        var i :| 0 <= i < |packages[1..]| && packages[1..][i] == q;
      }
    }
  }

  lemma MountGoneKeeps(packages: seq<Package>, files: set<string>, foreign: set<string>, device: string)
    requires Consistent(packages, files, foreign)
    ensures Consistent(NotOn(packages, device), files - ExecsOn(packages, device), foreign)
  {
    NotOnIds(packages, device);
    ExportedSplit(packages, device);
  }

  // ---- All runs ----

  function Exec(packages: seq<Package>, files: set<string>, steps: seq<Step>): (seq<Package>, set<string>)
    decreases |steps|
  {
    if steps == [] then (packages, files)
    else
      var (ps, fs) := Apply(packages, files, steps[0]);
      Exec(ps, fs, steps[1..])
  }

  lemma ApplyKeeps(packages: seq<Package>, files: set<string>, foreign: set<string>, s: Step)
    requires Consistent(packages, files, foreign)
    ensures var (ps, fs) := Apply(packages, files, s); Consistent(ps, fs, foreign)
  {
    match s {
      case Appears(p, execs) => RegisterKeeps(packages, files, foreign, p, execs);
      case PathGone(path) =>
        var n := PathIndex(packages, OneSlash(path));
        if n >= 0 {
          KillRemovesOwn(packages, files, foreign, n);
        }
      case MountGone(device) => MountGoneKeeps(packages, files, foreign, device);
    }
  }

  lemma {:induction false} ExecKeeps(packages: seq<Package>, files: set<string>, foreign: set<string>,
                                     steps: seq<Step>)
    requires Consistent(packages, files, foreign)
    ensures var (ps, fs) := Exec(packages, files, steps); Consistent(ps, fs, foreign)
    decreases |steps|
  {
    if steps != [] {
      ApplyKeeps(packages, files, foreign, steps[0]);
      var (ps, fs) := Apply(packages, files, steps[0]);
      ExecKeeps(ps, fs, foreign, steps[1..]);
    }
  }

  /** Starting with an empty registry and any files in the directory, in every run: ids are unique,
      no two packages export the same name, none exports a foreign one, and the directory holds
      the foreign files and the exported names and nothing else. */
  lemma ExecutablesHaveOneOwner(foreign: set<string>, steps: seq<Step>)
    ensures var (ps, fs) := Exec([], foreign, steps);
            && DistinctIds(ps)
            && (forall i, j, n | 0 <= i < j < |ps| && n in ps[i].exec :: n !in ps[j].exec)
            && (forall q, n | q in ps && n in q.exec :: n !in foreign && n in fs)
            && (forall n | n in fs :: n in foreign || exists q :: q in ps && n in q.exec)
            && foreign <= fs
  {
    ExecKeeps([], foreign, foreign, steps);
    var (ps, fs) := Exec([], foreign, steps);
    forall i, j, n | 0 <= i < j < |ps| && n in ps[i].exec
      ensures n !in ps[j].exec
    {
      ExportedWithout(ps, i);
      var rest := ps[..i] + ps[i + 1..];
      assert rest[j - 1] == ps[j];
      assert n in ps[j].exec ==> n in Exported(rest) by {
        if n in ps[j].exec {
          ExecIsExported(rest, ps[j], n);
        }
      }
      assert Exported(ps)[n] == Exported(rest)[n] + multiset(ps[i].exec)[n] <= 1;
    }
    forall q, n | q in ps && n in q.exec
      ensures n in Exported(ps)
    {
      ExecIsExported(ps, q, n);
    }
    forall n | n in Exported(ps)
      ensures exists q :: q in ps && n in q.exec
    {
      ExportedHasOwner(ps, n);
    }
  }

  lemma {:induction false} ExportedHasOwner(packages: seq<Package>, n: string)
    requires n in Exported(packages)
    ensures exists q :: q in packages && n in q.exec
  {
    if n in packages[0].exec {
      assert packages[0] in packages;
    } else {
      ExportedHasOwner(packages[1..], n);
    }
  }

  /** Releasing a package by the path it has just been registered under takes the registration
      back, files included, exactly when no other package has that path. */
  lemma ReleaseUndoesRegisterIff(packages: seq<Package>, files: set<string>, foreign: set<string>, p: Package,
                                 execs: seq<string>)
    requires Consistent(packages, files, foreign) && Registered(packages, files, p, execs).2 >= 0
    ensures var (ps, fs, _) := Registered(packages, files, p, execs);
            Apply(ps, fs, PathGone(p.path)) == (packages, files) <==> PathIndex(packages, OneSlash(p.path)) < 0
  {
    var (own, names) := ExportLists(execs, [], files);
    var q := p.(path := OneSlash(p.path), exec := own);
    ExportListsFresh(execs, [], files);
    assert Registered(packages, files, p, execs) == (packages + [q], names, |packages|);
    assert names - (set x | x in own) == files;
    LastByPath(packages, q);
  }

  /** The last package is found by its path and removed exactly when no other has that path. */
  lemma LastByPath(packages: seq<Package>, q: Package)
    requires forall r | r in packages :: r.id != q.id
    ensures var n := PathIndex(packages + [q], q.path);
            && n >= 0
            && (PathIndex(packages, q.path) < 0 ==> n == |packages|)
            && ((packages + [q])[..n] + (packages + [q])[n + 1..] == packages <==> PathIndex(packages, q.path) < 0)
  {
    var ps := packages + [q];
    var n := PathIndex(ps, q.path);
    assert ps[|packages|] == q && forall i :: 0 <= i < |packages| ==> ps[i] == packages[i];
    if PathIndex(packages, q.path) < 0 {
      assert ps[..n] + ps[n + 1..] == packages;
    } else {
      var after := ps[..n] + ps[n + 1..];
      assert after[|packages| - 1] == q && packages[|packages| - 1] in packages;
    }
  }

  /** An invalid id is turned away exactly when some package is registered already: the check sits
      inside the loop over the registered packages. */
  lemma InvalidIdRefusedIff(packages: seq<Package>, files: set<string>, p: Package, execs: seq<string>)
    requires !ValidId(p.id)
    ensures Registered(packages, files, p, execs).2 == BAD_ID <==> packages != []
  {
  }
}
