/** The files a fixture depends on: a worklist over its local imports. */
module ImportClosure {
  import opened Results

  const PREFIX := "cipher_development"

  /** A source tree: for every file the modules its import statements name, in order. */
  type Tree = map<string, seq<string>>

  /** Path(*module.split('.')).with_suffix('.py').as_posix() */
  function Slashes(name: string): (path: string)
    ensures |path| == |name| && forall i :: 0 <= i < |name| ==> path[i] == if name[i] == '.' then '/' else name[i]
  {
    if |name| == 0 then
      ""
    else
      Slashes(name[..|name| - 1]) + [if name[|name| - 1] == '.' then '/' else name[|name| - 1]]
  }

  function Candidate(name: string): string {
    Slashes(name) + ".py"
  }

  predicate Local(name: string) {
    PREFIX <= name
  }

  lemma LocalIff(name: string)
    ensures Local(name) <==> |name| >= 18 && name[..18] == "cipher_development"
  {
  }

  predicate Named(modules: seq<string>, path: string) {
    exists i :: 0 <= i < |modules| && Local(modules[i]) && Candidate(modules[i]) == path
  }

  lemma NamedNext(modules: seq<string>, k: nat)
    requires k < |modules|
    ensures forall p :: Named(modules[..k + 1], p) <==>
              Named(modules[..k], p) || (Local(modules[k]) && Candidate(modules[k]) == p)
  {
    forall p ensures Named(modules[..k + 1], p) <==>
        Named(modules[..k], p) || (Local(modules[k]) && Candidate(modules[k]) == p) {
      if Named(modules[..k], p) {
        var i :| 0 <= i < k && Local(modules[..k][i]) && Candidate(modules[..k][i]) == p;
        assert modules[..k + 1][i] == modules[..k][i];
      }
      if Local(modules[k]) && Candidate(modules[k]) == p {
        assert modules[..k + 1][k] == modules[k];
      }
    }
  }

  /** file imports path: a local module that is a file of the tree. */
  predicate Imports(tree: Tree, file: string, path: string) {
    file in tree && path in tree && Named(tree[file], path)
  }

  /** A chain of imports. */
  ghost predicate Chain(tree: Tree, files: seq<string>) {
    |files| > 0 && forall i :: 0 <= i < |files| - 1 ==> Imports(tree, files[i], files[i + 1])
  }

  ghost predicate Reaches(tree: Tree, entry: string, path: string) {
    exists files :: Chain(tree, files) && files[0] == entry && files[|files| - 1] == path
  }

  lemma ReachesSelf(tree: Tree, entry: string)
    ensures Reaches(tree, entry, entry)
  {
    assert Chain(tree, [entry]) && [entry][0] == entry;
  }

  lemma ReachesNext(tree: Tree, entry: string, file: string, path: string)
    requires Reaches(tree, entry, file) && Imports(tree, file, path)
    ensures Reaches(tree, entry, path)
  {
    var files :| Chain(tree, files) && files[0] == entry && files[|files| - 1] == file;
    var more := files + [path];
    forall i | 0 <= i < |more| - 1 ensures Imports(tree, more[i], more[i + 1]) {
      assert i < |files| - 1 ==> Imports(tree, files[i], files[i + 1]);
    }
    assert Chain(tree, more) && more[0] == entry && more[|more| - 1] == path;
  }

  /** A set that holds the entry and whatever its members import holds every reachable file. */
  lemma {:induction false} ClosedHoldsChain(tree: Tree, closure: set<string>, files: seq<string>)
    requires Chain(tree, files) && files[0] in closure
    requires forall p, q :: p in closure && Imports(tree, p, q) ==> q in closure
    ensures files[|files| - 1] in closure
    decreases |files|
  {
    if |files| > 1 {
      assert Imports(tree, files[0], files[1]);
      forall i | 0 <= i < |files[1..]| - 1 ensures Imports(tree, files[1..][i], files[1..][i + 1]) {
        assert Imports(tree, files[i + 1], files[i + 1 + 1]);
      }
      ClosedHoldsChain(tree, closure, files[1..]);
    }
  }

  /** What the worklist keeps: all it holds is reachable, and what the closure imports
      is in the closure or still pending. */
  ghost predicate Working(tree: Tree, entry: string, closure: set<string>, pending: seq<string>) {
    && closure <= tree.Keys
    && (entry in closure || entry in pending)
    && (forall p :: p in closure ==> Reaches(tree, entry, p))
    && (forall i :: 0 <= i < |pending| ==>
        Reaches(tree, entry, pending[i]) && (pending[i] in tree || pending[i] == entry))
    && (forall p, q :: p in closure && Imports(tree, p, q) ==> q in closure || q in pending)
  }

  datatype ClosureError = MissingFile(path: string)

  /** The local imports of one file, pushed in order. */
  method PushImports(tree: Tree, file: string, pending: seq<string>) returns (more: seq<string>)
    requires file in tree
    ensures forall p :: p in more <==> p in pending || Imports(tree, file, p)
  {
    more := pending;
    var modules := tree[file];
    for k := 0 to |modules|
      invariant forall p :: p in more <==> p in pending || (p in tree && Named(modules[..k], p))
    {
      NamedNext(modules, k);
      if Local(modules[k]) && Candidate(modules[k]) in tree {
        more := more + [Candidate(modules[k])];
      }
    }
    assert modules[..|modules|] == modules;
  }

  /** local_import_closure */
  method LocalImportClosure(tree: Tree, entry: string) returns (r: Result<set<string>, ClosureError>)
    ensures entry !in tree ==> r == Err(MissingFile(entry))
    ensures entry in tree ==> r.Ok? && forall p :: p in r.value <==> Reaches(tree, entry, p)
  {
    var pending := [entry];
    var closure: set<string> := {};
    ReachesSelf(tree, entry);
    while pending != []
      invariant Working(tree, entry, closure, pending)
      invariant entry !in tree ==> closure == {} && pending == [entry]
      decreases tree.Keys - closure, |pending|
    {
      var file := pending[|pending| - 1];
      ghost var before := pending;
      pending := pending[..|pending| - 1];
      assert forall p :: p in before <==> p in pending || p == file;
      if file in closure {
        continue;
      }
      if file !in tree {
        return Err(MissingFile(file));
      }
      ghost var less := closure;
      closure := closure + {file};
      assert file in tree.Keys - less && file !in tree.Keys - closure;
      var rest := pending;
      pending := PushImports(tree, file, rest);
      forall p | p in pending ensures Reaches(tree, entry, p) && (p in tree || p == entry) {
        if Imports(tree, file, p) {
          ReachesNext(tree, entry, file, p);
        }
      }
    }
    forall p ensures p in closure <==> Reaches(tree, entry, p) {
      if Reaches(tree, entry, p) {
        var files :| Chain(tree, files) && files[0] == entry && files[|files| - 1] == p;
        ClosedHoldsChain(tree, closure, files);
      }
    }
    return Ok(closure);
  }
}
