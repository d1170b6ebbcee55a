/** Which names a registration exports and which ids it accepts, told from the texts themselves. */
module RegistryNames {
  import opened CStrings
  import opened Registry

  // ---- File names ----

  /** The path leads to a file of this name, in some directory or in none. */
  ghost predicate LeadsTo(path: string, name: string) {
    '/' !in name && (path == name || exists dir: string :: path == dir + "/" + name)
  }

  lemma {:induction false} NameAfterSlash(dir: string, name: string)
    requires '/' !in name
    ensures FileName(dir + "/" + name) == name
  {
    var path := dir + "/" + name;
    if name != "" {
      var n := |name| - 1;
      assert name == name[..n] + [name[n]];
      assert path[..|path| - 1] == dir + "/" + name[..n] && path[|path| - 1] == name[n];
      NameAfterSlash(dir, name[..n]);
    }
  }

  lemma {:induction false} NameWithoutSlash(name: string)
    requires '/' !in name
    ensures FileName(name) == name
  {
    if name != "" {
      var n := |name| - 1;
      assert name == name[..n] + [name[n]];
      NameWithoutSlash(name[..n]);
    }
  }

  /** The name of a path is what follows its last slash, and nothing else. */
  lemma FileNameIff(path: string, name: string)
    ensures FileName(path) == name <==> LeadsTo(path, name)
  {
    if LeadsTo(path, name) {
      if path == name {
        NameWithoutSlash(name);
      } else {
        var dir: string :| path == dir + "/" + name;
        NameAfterSlash(dir, name);
      }
    }
    FileNameLeads(path);
  }

  lemma {:induction false} FileNameLeads(path: string)
    ensures LeadsTo(path, FileName(path))
  {
    if path != "" {
      var n := |path| - 1;
      assert path == path[..n] + [path[n]];
      if path[n] == '/' {
        assert path == path[..n] + "/" + "";
      } else {
        FileNameLeads(path[..n]);
        var name := FileName(path[..n]);
        if path[..n] != name {
          var dir: string :| path[..n] == dir + "/" + name;
          assert path == dir + "/" + (name + [path[n]]);
        }
      }
    }
  }

  // ---- What a registration exports ----

  /** All paths of the lists, list by list. */
  function AllPaths(execs: seq<string>): seq<string> {
    if execs == [] then [] else Tokens(execs[0]) + AllPaths(execs[1..])
  }

  lemma {:induction false} ExportInTurn(toks: seq<string>, more: seq<string>, own: seq<string>, files: set<string>)
    ensures var (own', files') := ExportAll(toks, own, files);
            ExportAll(toks + more, own, files) == ExportAll(more, own', files')
    decreases |toks|
  {
    if toks == [] {
      assert toks + more == more;
    } else {
      assert (toks + more)[1..] == toks[1..] + more;
      var name := FileName(toks[0]);
      if DirectoryName(name) || name in files {
        ExportInTurn(toks[1..], more, own, files);
      } else {
        ExportInTurn(toks[1..], more, own + [name], files + {name});
      }
    }
  }

  lemma {:induction false} ListsInTurn(execs: seq<string>, own: seq<string>, files: set<string>)
    ensures ExportLists(execs, own, files) == ExportAll(AllPaths(execs), own, files)
    decreases |execs|
  {
    if execs != [] {
      var (own', files') := ExportAll(Tokens(execs[0]), own, files);
      ListsInTurn(execs[1..], own', files');
      ExportInTurn(Tokens(execs[0]), AllPaths(execs[1..]), own, files);
    }
  }

  /** Names that can all be exported: different from each other, free, and names of files. */
  ghost predicate Exportable(names: seq<string>, files: set<string>) {
    && (forall i, j :: 0 <= i < j < |names| ==> names[i] != names[j])
    && (forall n | n in names :: n !in files && n != "" && n != "." && n != "..")
  }

  ghost predicate PathsTo(paths: seq<string>, names: seq<string>) {
    |paths| == |names| && forall i :: 0 <= i < |paths| ==> LeadsTo(paths[i], names[i])
  }

  lemma {:induction false} ExportsEach(paths: seq<string>, names: seq<string>, own: seq<string>, files: set<string>)
    requires PathsTo(paths, names) && Exportable(names, files)
    ensures ExportAll(paths, own, files) == (own + names, files + set n | n in names)
    decreases |paths|
  {
    if paths == [] {
      assert own + names == own && files + (set n | n in names) == files;
    } else {
      var name, rest := names[0], names[1..];
      FirstIsExported(paths, names, own, files);
      ExportsEach(paths[1..], rest, own + [name], files + {name});
      OneMoreName(name, rest, own, files);
      assert names == [name] + rest;
    }
  }

  lemma FirstIsExported(paths: seq<string>, names: seq<string>, own: seq<string>, files: set<string>)
    requires paths != [] && PathsTo(paths, names) && Exportable(names, files)
    ensures ExportAll(paths, own, files) == ExportAll(paths[1..], own + [names[0]], files + {names[0]})
    ensures PathsTo(paths[1..], names[1..]) && Exportable(names[1..], files + {names[0]})
  {
    assert names[0] in names && LeadsTo(paths[0], names[0]);
    FileNameIff(paths[0], names[0]);
    RestIsExportable(names, files);
  }

  lemma RestIsExportable(names: seq<string>, files: set<string>)
    requires names != [] && Exportable(names, files)
    ensures Exportable(names[1..], files + {names[0]})
  {
    assert forall i :: 0 <= i < |names| - 1 ==> names[1..][i] == names[i + 1] && names[0] != names[i + 1];
  }

  lemma OneMoreName(name: string, rest: seq<string>, own: seq<string>, files: set<string>)
    ensures own + [name] + rest == own + ([name] + rest)
    ensures files + {name} + (set n | n in rest) == files + set n | n in [name] + rest
  {
  }

  /** Registering a package whose lists name files that can all be exported records exactly these
      names, in order, and puts exactly them into the directory. */
  lemma RegisterExportsNames(packages: seq<Package>, files: set<string>, p: Package, execs: seq<string>,
                             names: seq<string>)
    requires PathsTo(AllPaths(execs), names) && Exportable(names, files)
    requires Registered(packages, files, p, execs).2 >= 0
    ensures var (ps, fs, n) := Registered(packages, files, p, execs);
            && n == |packages| && |ps| == n + 1 && ps[..n] == packages
            && ps[n].id == p.id && ps[n].exec == names
            && fs == files + set x | x in names
  {
    ListsInTurn(execs, [], files);
    ExportsEach(AllPaths(execs), names, [], files);
    assert [] + names == names;
  }

  /** A name that is taken is left alone, whoever has it: neither recorded nor written again. */
  lemma TakenNameIsSkipped(path: string, more: seq<string>, own: seq<string>, files: set<string>, name: string)
    requires LeadsTo(path, name) && (name in files || name == "" || name == "." || name == "..")
    ensures ExportAll([path] + more, own, files) == ExportAll(more, own, files)
  {
    FileNameIff(path, name);
    assert ([path] + more)[1..] == more;
  }

  /** The path is recorded as it is, except that one of two slashes at its start goes. */
  lemma RegisterRecordsPath(packages: seq<Package>, files: set<string>, p: Package, execs: seq<string>)
    requires Registered(packages, files, p, execs).2 >= 0
    ensures var path := Registered(packages, files, p, execs).0[|packages|].path;
            && (forall rest: string :: p.path == "//" + rest ==> path == "/" + rest)
            && ((forall rest: string :: p.path != "//" + rest) ==> path == p.path)
  {
    if "//" <= p.path {
      assert p.path == "//" + p.path[2..];
      forall rest: string | p.path == "//" + rest
        ensures p.path[1..] == "/" + rest
      {
      }
    }
  }

  // ---- Ids ----

  const LETTERS := "abcdefghijklmnopqrstuvwxyz"
  const CAPITALS := "ABCDEFGHIJKLMNOPQRSTUVWXYZ"
  const NUMERALS := "0123456789"
  const MARKS := "-_."

  /** The characters that an id may have. */
  predicate Listed(c: char) { c in LETTERS || c in CAPITALS || c in NUMERALS || c in MARKS }

  lemma InLetters(c: char)
    ensures 'a' <= c <= 'z' <==> c in LETTERS
  {
    if 'a' <= c <= 'z' {
      assert LETTERS[c as int - 'a' as int] == c;
    }
  }

  lemma InCapitals(c: char)
    ensures 'A' <= c <= 'Z' <==> c in CAPITALS
  {
    if 'A' <= c <= 'Z' {
      assert CAPITALS[c as int - 'A' as int] == c;
    }
  }

  lemma InNumerals(c: char)
    ensures '0' <= c <= '9' <==> c in NUMERALS
  {
    if '0' <= c <= '9' {
      assert NUMERALS[c as int - '0' as int] == c;
    }
  }

  lemma IdCharIff(c: char)
    ensures IdChar(c) <==> Listed(c)
  {
    InLetters(c);
    InCapitals(c);
    InNumerals(c);
    assert c in MARKS <==> c == '-' || c == '_' || c == '.';
  }

  /** With other packages registered, an id is refused as invalid exactly if it is one of the two
      directory names or has a character that is not listed. */
  lemma IdRefusedIff(packages: seq<Package>, files: set<string>, p: Package, execs: seq<string>)
    requires packages != []
    ensures Registered(packages, files, p, execs).2 == -1007
            <==> p.id == "." || p.id == ".." || exists c :: c in p.id && !Listed(c)
  {
    forall c: char
      ensures IdChar(c) <==> Listed(c)
    {
      IdCharIff(c);
    }
  }

  /** Otherwise it is refused exactly if some package has it. */
  lemma KnownIdRefusedIff(packages: seq<Package>, files: set<string>, p: Package, execs: seq<string>)
    requires packages == [] || Registered(packages, files, p, execs).2 != -1007
    ensures Registered(packages, files, p, execs).2 == -1013 <==> exists q :: q in packages && q.id == p.id
    ensures Registered(packages, files, p, execs).2 < 0 ==>
              Registered(packages, files, p, execs) == (packages, files, -1013)
  {
    var n := IdIndex(packages, p.id);
    if n >= 0 {
      assert packages[n] in packages;
    }
  }
}
