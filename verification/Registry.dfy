/** The package registry of dbpd/package.c: registered packages and the executables exported for
    them into a shared directory. */
module Registry {
  import Sequences
  import opened CStrings

  datatype Package = Package(path: string, id: string, device: string, mount: string, appdata: string,
                             version: string, sysDep: string, pkgDep: string, exec: seq<string>)

  const BAD_ID := -1007
  const ALREADY_REGISTERED := -1013
  const NOT_FOUND := -1020

  predicate IdChar(c: char) { IsAlpha(c) || IsDigit(c) || c == '-' || c == '_' || c == '.' }

  /** package_id_validate: the empty id passes. */
  predicate ValidId(id: string) {
    id != ".." && id != "." && forall c | c in id :: IdChar(c)
  }

  /** A path that begins with two slashes loses one. */
  function OneSlash(path: string): string {
    if "//" <= path then path[1..] else path
  }

  /** find_filename: what follows the last slash. */
  function FileName(path: string): string {
    if path == "" || path[|path| - 1] == '/' then ""
    else FileName(path[..|path| - 1]) + [path[|path| - 1]]
  }

  function IdIndex(packages: seq<Package>, id: string): (n: int)
    ensures -1 <= n < |packages|
    ensures n >= 0 ==> packages[n].id == id
    ensures forall i :: 0 <= i < (if n >= 0 then n else |packages|) ==> packages[i].id != id
  {
    Sequences.First(packages, (x: Package) => x.id == id)
  }

  function PathIndex(packages: seq<Package>, path: string): (n: int)
    ensures -1 <= n < |packages|
    ensures n >= 0 ==> packages[n].path == path
    ensures forall i :: 0 <= i < (if n >= 0 then n else |packages|) ==> packages[i].path != path
  {
    Sequences.First(packages, (x: Package) => x.path == path)
  }

  /** The executables of all packages, with multiplicity. */
  function Exported(packages: seq<Package>): multiset<string> {
    if packages == [] then multiset{} else multiset(packages[0].exec) + Exported(packages[1..])
  }

  /** The packages that are not on a device. */
  function NotOn(packages: seq<Package>, device: string): seq<Package> {
    if packages == [] then []
    else (if packages[0].device == device then [] else [packages[0]]) + NotOn(packages[1..], device)
  }

  predicate DistinctIds(packages: seq<Package>) {
    forall i, j :: 0 <= i < j < |packages| ==> packages[i].id != packages[j].id
  }

  /** Ids are unique, no executable is exported twice or over a file of somebody else, and the
      directory holds exactly the foreign files and the exported ones. */
  ghost predicate Consistent(packages: seq<Package>, files: set<string>, foreign: set<string>) {
    && DistinctIds(packages)
    && (forall n :: Exported(packages)[n] <= 1)
    && (forall n | n in foreign :: n !in Exported(packages))
    && (forall n :: n in files <==> n in foreign || n in Exported(packages))
  }

  /** The names at which an access check finds something even in an empty directory. */
  predicate DirectoryName(name: string) { name == "" || name == "." || name == ".." }

  class Registry {
    var packages: seq<Package>
    var files: set<string>   // the names in the executables directory

    constructor (files: set<string>)
      ensures packages == [] && this.files == files
    {
      packages := [];
      this.files := files;
    }

    /** package_add */
    method Add(p: Package) returns (ret: int)
      modifies this`packages
      ensures if old(packages) != [] && !ValidId(p.id) then ret == BAD_ID && packages == old(packages)
              else if IdIndex(old(packages), p.id) >= 0 then ret == ALREADY_REGISTERED && packages == old(packages)
              else ret == |old(packages)| && packages == old(packages) + [p.(path := OneSlash(p.path), exec := [])]
    {
      var i := 0;
      while i < |packages|
        invariant 0 <= i <= |packages|
        invariant i > 0 ==> ValidId(p.id)
        invariant forall j :: 0 <= j < i ==> packages[j].id != p.id
      {
        if !ValidId(p.id) {
          return BAD_ID;
        }
        if packages[i].id == p.id {
          return ALREADY_REGISTERED;
        }
        i := i + 1;
      }
      ret := |packages|;
      packages := packages + [p.(path := OneSlash(p.path), exec := [])];
    }

    /** package_meta_exec_export for one list of executables. */
    method ExecExport(exec: string, id: nat)
      requires id < |packages|
      modifies this
      ensures var (own, names) := ExportAll(Tokens(exec), old(packages)[id].exec, old(files));
              packages == old(packages)[id := old(packages)[id].(exec := own)] && files == names
    {
      var toks := Tokens(exec);
      ghost var before := packages;
      var i := 0;
      while i < |toks|
        invariant 0 <= i <= |toks| && |packages| == |before|
        invariant packages == before[id := before[id].(exec := packages[id].exec)]
        invariant ExportAll(toks, before[id].exec, old(files)) == ExportAll(toks[i..], packages[id].exec, files)
      {
        assert toks[i..][1..] == toks[i + 1..];
        var name := FileName(toks[i]);
        if !(DirectoryName(name) || name in files) {
          files := files + {name};
          packages := packages[id := packages[id].(exec := packages[id].exec + [name])];
        }
        i := i + 1;
      }
    }

    /** package_register once the package's metadata has been read. */
    method Register(p: Package, execs: seq<string>) returns (ret: int)
      modifies this
      ensures (packages, files, ret) == Registered(old(packages), old(files), p, execs)
    {
      ret := Add(p);
      if ret < 0 {
        return;
      }
      ghost var start, own := packages, packages[ret].exec;
      ghost var names := files;
      for i := 0 to |execs|
        invariant |packages| == |start| && packages == start[ret := start[ret].(exec := packages[ret].exec)]
        invariant ExportLists(execs, own, names) == ExportLists(execs[i..], packages[ret].exec, files)
      {
        assert execs[i..][1..] == execs[i + 1..];
        ExecExport(execs[i], ret);
      }
      assert execs[|execs|..] == [];
      assert packages == old(packages) + [p.(path := OneSlash(p.path), exec := packages[ret].exec)];
    }

    /** package_kill */
    method Kill(entry: nat)
      requires entry < |packages|
      modifies this
      ensures packages == old(packages)[..entry] + old(packages)[entry + 1..]
      ensures files == old(files) - set n | n in old(packages)[entry].exec
    {
      var exec := packages[entry].exec;
      for i := 0 to |exec|
        invariant packages == old(packages)
        invariant files == old(files) - set n | n in exec[..i]
      {
        files := files - {exec[i]};
      }
      assert exec[..|exec|] == exec;
      packages := packages[..entry] + packages[entry + 1..];
    }

    /** package_release_path */
    method ReleasePath(path: string) returns (ret: int)
      modifies this
      ensures var n := PathIndex(old(packages), OneSlash(path));
              if n < 0 then ret == -1020 && packages == old(packages) && files == old(files)
              else
                && ret == 1
                && packages == old(packages)[..n] + old(packages)[n + 1..]
                && files == old(files) - set x | x in old(packages)[n].exec
    {
      var p := OneSlash(path);
      var i := 0;
      while i < |packages|
        invariant 0 <= i <= |packages|
        invariant unchanged(this)
        invariant forall j :: 0 <= j < i ==> packages[j].path != p
      {
        if packages[i].path == p {
          Kill(i);
          return 1;
        }
        i := i + 1;
      }
      return NOT_FOUND;
    }

    /** package_release_mount: the loop steps back after each removal, and skips a package that it
        has just tried to remove. */
    method ReleaseMount(device: string)
      requires DistinctIds(packages)
      modifies this
      ensures packages == NotOn(old(packages), device)
      ensures files == old(files) - ExecsOn(old(packages), device)
    {
      ghost var kept: seq<Package>, rest := [], packages;   // visited, and still to be visited
      ghost var survivors, gone := NotOn(packages, device), ExecsOn(packages, device);
      var last: seq<string> := [];   // the id visited last, if any
      var i := 0;
      while i < |packages|
        invariant packages == kept + rest && i == |kept| && DistinctIds(packages)
        invariant survivors == kept + NotOn(rest, device)
        invariant old(files) - gone == files - ExecsOn(rest, device)
        invariant forall p | p in rest :: last != [p.id]
        decreases |rest|
      {
        var p := packages[i];
        ghost var next := rest[1..];
        RemoveAfter(kept, rest);
        LaterIdsDiffer(kept, rest);
        NextPackage(kept, rest, device);
        if last != [p.id] {
          last := [p.id];
          if p.device == device {
            Kill(i);
            i := i - 1;
          } else {
            kept := kept + [p];
          }
        }
        rest := next;
        i := i + 1;
      }
    }
  }

  /** Removing the element after `kept`, as Kill does at that index. */
  lemma RemoveAfter(kept: seq<Package>, rest: seq<Package>)
    requires rest != [] && DistinctIds(kept + rest)
    ensures var all, i := kept + rest, |kept|;
            all[i] == rest[0] && all[..i] + all[i + 1..] == kept + rest[1..] && all == kept + [rest[0]] + rest[1..]
    ensures DistinctIds(kept + rest[1..])
  {
    var all, less, i := kept + rest, kept + rest[1..], |kept|;
    assert forall k :: 0 <= k < |less| ==> less[k] == all[if k < i then k else k + 1];
  }

  lemma LaterIdsDiffer(kept: seq<Package>, rest: seq<Package>)
    requires rest != [] && DistinctIds(kept + rest)
    ensures forall q | q in rest[1..] :: q.id != rest[0].id
  {
    var all, i := kept + rest, |kept|;
    forall k | 0 < k < |rest|
      ensures rest[k].id != rest[0].id
    {
      assert all[i] == rest[0] && all[i + k] == rest[k];
    }
  }

  lemma NextPackage(kept: seq<Package>, rest: seq<Package>, device: string)
    requires rest != []
    ensures var p, next := rest[0], rest[1..];
            && (p.device != device ==> kept + NotOn(rest, device) == kept + [p] + NotOn(next, device))
            && (p.device == device ==> NotOn(rest, device) == NotOn(next, device))
            && ExecsOn(rest, device) == ExecsOn(next, device) + if p.device == device then set n | n in p.exec else {}
  {
  }

  /** The executables of the packages on a device. */
  function ExecsOn(packages: seq<Package>, device: string): set<string> {
    if packages == [] then {}
    else (if packages[0].device == device then set n | n in packages[0].exec else {}) + ExecsOn(packages[1..], device)
  }

  /** Exports one list: names that are taken are left out. Gives the package's executables and
      the directory afterwards. */
  function ExportAll(toks: seq<string>, own: seq<string>, files: set<string>): (seq<string>, set<string>)
    decreases |toks|
  {
    if toks == [] then (own, files)
    else
      var name := FileName(toks[0]);
      if DirectoryName(name) || name in files then ExportAll(toks[1..], own, files)
      else ExportAll(toks[1..], own + [name], files + {name})
  }

  function ExportLists(execs: seq<string>, own: seq<string>, files: set<string>): (seq<string>, set<string>)
    decreases |execs|
  {
    if execs == [] then (own, files)
    else
      var (own', files') := ExportAll(Tokens(execs[0]), own, files);
      ExportLists(execs[1..], own', files')
  }

  function Registered(packages: seq<Package>, files: set<string>, p: Package, execs: seq<string>)
    : (seq<Package>, set<string>, int)
  {
    if packages != [] && !ValidId(p.id) then (packages, files, BAD_ID)
    else if IdIndex(packages, p.id) >= 0 then (packages, files, ALREADY_REGISTERED)
    else
      var (own, names) := ExportLists(execs, [], files);
      (packages + [p.(path := OneSlash(p.path), exec := own)], names, |packages|)
  }
}
