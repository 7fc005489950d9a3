/**
 * The additional-file registry: every archive member that is neither a
 * directory, a `player_variables.scr` nor a nested archive is staged and
 * recorded under its normalised path, one candidate per occurrence. A member
 * whose read fails ends the archive's loop; its path keeps the list created
 * for it, possibly empty.
 */
module AuxFiles {
  import opened Wrappers
  import opened Text
  import opened Records
  import opened KeyOrder
  import opened Resolution

  /**
   * An archive member as the listing reports it, and whether reading it from
   * the archive into its staged file succeeds (`readable`); a failed read
   * raises out of the member loop.
   */
  datatype Member = Member(filename: string, isDirectory: bool, readable: bool)

  /** `other_files_map`: archive path to the (source, staged path) candidates, in registration order. */
  type Registry = map<string, seq<Candidate>>

  /** `filename.replace('\\', '/')`. */
  function NormalizePath(p: string): (r: string)
    ensures |r| == |p|
    ensures forall i :: 0 <= i < |p| ==> r[i] == if p[i] == '\\' then '/' else p[i]
    ensures '\\' !in r
    ensures '\\' !in p ==> r == p
  {
    seq(|p|, i requires 0 <= i < |p| => if p[i] == '\\' then '/' else p[i])
  }

  /** The member is a parameter file, whatever the case of its name. */
  predicate IsPlayerVars(path: string) {
    EndsWith(Lower(path), "player_variables.scr")
  }

  /** The member is a nested archive, which the registry skips. */
  predicate IsArchive(path: string) {
    var l := Lower(path);
    EndsWith(l, ".zip") || EndsWith(l, ".pak") || EndsWith(l, ".7z")
  }

  /** The member goes into the registry. */
  predicate IsOtherFile(m: Member) {
    !m.isDirectory && !IsPlayerVars(NormalizePath(m.filename)) && !IsArchive(NormalizePath(m.filename))
  }

  /** The member is a parameter file to stage. */
  predicate IsParamFile(m: Member) {
    !m.isDirectory && IsPlayerVars(NormalizePath(m.filename))
  }

  /** The member's contents are read, and reading them fails. */
  predicate Fails(m: Member) {
    (IsParamFile(m) || IsOtherFile(m)) && !m.readable
  }

  /** Member `k` is the first whose read fails. */
  predicate FirstFailure(members: seq<Member>, k: int) {
    0 <= k < |members| && Fails(members[k]) && forall j :: 0 <= j < k ==> !Fails(members[j])
  }

  /**
   * The suffix tests ignore case: a parameter file ends in
   * `player_variables.scr` and a nested archive in `.zip`, `.pak` or `.7z`,
   * in any mix of capitals.
   */
  lemma MemberKinds(path: string)
    ensures IsPlayerVars(path) <==> EndsWithIgnoringCase(path, "player_variables.scr")
    ensures IsArchive(path) <==>
      EndsWithIgnoringCase(path, ".zip") || EndsWithIgnoringCase(path, ".pak") || EndsWithIgnoringCase(path, ".7z")
  {
    EndsWithLower(path, "player_variables.scr");
    EndsWithLower(path, ".zip");
    EndsWithLower(path, ".pak");
    EndsWithLower(path, ".7z");
  }

  /** The position just after the last `/` in `path`, or 0 if there is none. */
  function BaseStart(path: string): (r: nat)
    ensures r <= |path|
    ensures r == 0 || path[r - 1] == '/'
    ensures forall i :: r <= i < |path| ==> path[i] != '/'
    decreases |path|
  {
    if path == [] || path[|path| - 1] == '/' then |path|
    else BaseStart(path[..|path| - 1])
  }

  /** `os.path.basename` of a path whose separators are `/`. */
  function Basename(path: string): string {
    path[BaseStart(path)..]
  }

  /** Where a member of mod `source` is staged: `<temp dir>/<source>_<basename>`. */
  function StagedPath(tempDir: string, source: string, path: string): string {
    tempDir + "/" + source + "_" + Basename(path)
  }

  /** The candidates recorded for `path` so far. */
  function Listed(reg: Registry, path: string): seq<Candidate> {
    if path in reg then reg[path] else []
  }

  /**
   * The registry after one member: the path's list is created if missing, then
   * extended by this member unless its read fails.
   */
  function Register(reg: Registry, m: Member, source: string, tempDir: string): Registry {
    if IsOtherFile(m) then
      var path := NormalizePath(m.filename);
      var list := Listed(reg, path);
      reg[path := if m.readable then list + [Candidate(source, StagedPath(tempDir, source, path))] else list]
    else reg
  }

  /** The registry after the members of one archive, in listing order. */
  function RegisterAll(reg: Registry, members: seq<Member>, source: string, tempDir: string): Registry
    decreases |members|
  {
    if members == [] then reg
    else
      var n := |members| - 1;
      Register(RegisterAll(reg, members[..n], source, tempDir), members[n], source, tempDir)
  }

  /** Some member is a parameter file. */
  predicate HasParamFile(members: seq<Member>) {
    exists i :: 0 <= i < |members| && IsParamFile(members[i])
  }

  /**
   * The member loop of `process_archive_content`. Directories are skipped,
   * parameter files noted, nested archives skipped and every other member
   * registered. `result` is `None` when a read fails, which leaves the loop
   * with the members up to and including the failing one processed; otherwise
   * it says whether a parameter file was seen.
   */
  method ProcessArchiveContent(registry: Registry, members: seq<Member>, source: string, tempDir: string)
    returns (reg: Registry, result: Option<bool>)
    ensures result.Some? <==> forall j :: 0 <= j < |members| ==> !Fails(members[j])
    ensures result.Some? ==> reg == RegisterAll(registry, members, source, tempDir)
    ensures result.Some? ==> (result.value <==> HasParamFile(members))
    ensures forall k :: FirstFailure(members, k) ==> reg == RegisterAll(registry, members[..k + 1], source, tempDir)
  {
    reg := registry;
    var found := false;
    var failed := false;
    var i := 0;
    while i < |members| && !failed
      invariant 0 <= i <= |members|
      invariant reg == RegisterAll(registry, members[..i], source, tempDir)
      invariant !failed ==> forall j :: 0 <= j < i ==> !Fails(members[j])
      invariant !failed ==> (found <==> HasParamFile(members[..i]))
      invariant failed ==> FirstFailure(members, i - 1)
      decreases |members| - i
    {
      ProcessStep(registry, members, source, tempDir, i);
      var isParam;
      reg, isParam, failed := ProcessMember(reg, members[i], source, tempDir);
      found := found || isParam;
      i := i + 1;
    }
    if failed {
      result := None;
    } else {
      assert members[..i] == members;
      result := Some(found);
    }
  }

  /**
   * The loop body for one member: skip a directory, note a parameter file,
   * skip a nested archive, register anything else; `failed` when the read of
   * a parameter file or a registered member fails.
   */
  method ProcessMember(reg0: Registry, m: Member, source: string, tempDir: string)
    returns (reg: Registry, isParam: bool, failed: bool)
    ensures reg == Register(reg0, m, source, tempDir)
    ensures isParam <==> IsParamFile(m) && m.readable
    ensures failed == Fails(m)
  {
    reg := reg0;
    isParam := false;
    failed := false;
    if !m.isDirectory {
      var path := NormalizePath(m.filename);
      if IsPlayerVars(path) {
        if m.readable {
          isParam := true;
        } else {
          failed := true;
        }
      } else if !IsArchive(path) {
        var list := if path in reg then reg[path] else [];
        reg := reg[path := list];
        if m.readable {
          reg := reg[path := list + [Candidate(source, StagedPath(tempDir, source, path))]];
        } else {
          failed := true;
        }
      }
    }
  }

  /** One more member extends the registry by `Register` and the search by that member. */
  lemma ProcessStep(registry: Registry, members: seq<Member>, source: string, tempDir: string, i: nat)
    requires i < |members|
    ensures RegisterAll(registry, members[..i + 1], source, tempDir)
      == Register(RegisterAll(registry, members[..i], source, tempDir), members[i], source, tempDir)
    ensures HasParamFile(members[..i + 1]) <==> HasParamFile(members[..i]) || IsParamFile(members[i])
  {
    assert members[..i + 1][..i] == members[..i];
    if HasParamFile(members[..i + 1]) && !IsParamFile(members[i]) {
      var j :| 0 <= j < i + 1 && IsParamFile(members[..i + 1][j]);
      assert members[..i][j] == members[j];
    }
    if HasParamFile(members[..i]) {
      var j :| 0 <= j < i && IsParamFile(members[..i][j]);
      assert members[..i + 1][j] == members[j];
    }
    if IsParamFile(members[i]) {
      assert members[..i + 1][i] == members[i];
    }
  }

  /** The number of members registered under `path` whose read succeeds. */
  function Occurrences(members: seq<Member>, path: string): nat
    decreases |members|
  {
    if members == [] then 0
    else
      var n := |members| - 1;
      var m := members[n];
      Occurrences(members[..n], path) + if IsOtherFile(m) && m.readable && NormalizePath(m.filename) == path then 1 else 0
  }

  /** `n` copies of `c`. */
  function Repeat(c: Candidate, n: nat): (r: seq<Candidate>)
    ensures |r| == n && forall i :: 0 <= i < n ==> r[i] == c
  {
    seq(n, i => c)
  }

  /**
   * Registration only appends: each path keeps the candidates it had and
   * gains one candidate (this source, its staged file) per registered member
   * with that path whose read succeeds, without any deduplication.
   */
  lemma {:induction false} RegisterAllAppends(reg: Registry, members: seq<Member>, source: string, tempDir: string, path: string)
    ensures Listed(RegisterAll(reg, members, source, tempDir), path)
      == Listed(reg, path) + Repeat(Candidate(source, StagedPath(tempDir, source, path)), Occurrences(members, path))
    decreases |members|
  {
    var c := Candidate(source, StagedPath(tempDir, source, path));
    if members == [] {
      assert Listed(reg, path) + [] == Listed(reg, path);
    } else {
      var n := |members| - 1;
      RegisterAllAppends(reg, members[..n], source, tempDir, path);
      var k := Occurrences(members[..n], path);
      if IsOtherFile(members[n]) && members[n].readable && NormalizePath(members[n].filename) == path {
        assert Repeat(c, k) + [c] == Repeat(c, k + 1);
      }
    }
  }

  /**
   * Exactly the paths already present or of some registered member are in the
   * registry afterwards, a member whose read fails included; a newly added
   * path is never a parameter file nor a nested archive.
   */
  lemma {:induction false} RegisterAllKeys(reg: Registry, members: seq<Member>, source: string, tempDir: string, path: string)
    ensures path in RegisterAll(reg, members, source, tempDir) <==>
      path in reg || exists i :: 0 <= i < |members| && IsOtherFile(members[i]) && NormalizePath(members[i].filename) == path
    ensures path in RegisterAll(reg, members, source, tempDir) && path !in reg ==>
      !IsPlayerVars(path) && !IsArchive(path)
  {
    RegisterAllHas(reg, members, source, tempDir, path);
    if path in RegisterAll(reg, members, source, tempDir) && path !in reg {
      var i :| 0 <= i < |members| && RegisteredAs(members[i], path);
    }
    if exists i :: 0 <= i < |members| && IsOtherFile(members[i]) && NormalizePath(members[i].filename) == path {
      var i :| 0 <= i < |members| && IsOtherFile(members[i]) && NormalizePath(members[i].filename) == path;
      assert RegisteredAs(members[i], path);
    }
  }

  /** Member `m` is registered under `path`. */
  predicate RegisteredAs(m: Member, path: string) {
    IsOtherFile(m) && NormalizePath(m.filename) == path
  }

  /** The key set of `RegisterAllKeys`, by induction on the members. */
  lemma {:induction false} RegisterAllHas(reg: Registry, members: seq<Member>, source: string, tempDir: string, path: string)
    ensures path in RegisterAll(reg, members, source, tempDir) <==>
      path in reg || exists i :: 0 <= i < |members| && RegisteredAs(members[i], path)
    decreases |members|
  {
    if members != [] {
      var n := |members| - 1;
      var init := members[..n];
      var prev := RegisterAll(reg, init, source, tempDir);
      RegisterAllHas(reg, init, source, tempDir, path);
      assert RegisterAll(reg, members, source, tempDir) == Register(prev, members[n], source, tempDir);
      RegisterKeys(prev, members[n], source, tempDir, path);
      if exists i :: 0 <= i < |members| && RegisteredAs(members[i], path) {
        var i :| 0 <= i < |members| && RegisteredAs(members[i], path);
        if i < n {
          assert init[i] == members[i];
        }
      }
      if exists i :: 0 <= i < |init| && RegisteredAs(init[i], path) {
        var i :| 0 <= i < |init| && RegisteredAs(init[i], path);
        assert init[i] == members[i];
      }
    }
  }

  /** One member adds its own path to the registry's keys when it is registered, and no other. */
  lemma RegisterKeys(reg: Registry, m: Member, source: string, tempDir: string, path: string)
    ensures path in Register(reg, m, source, tempDir) <==> path in reg || RegisteredAs(m, path)
  {
  }

  /**
   * The same path in the archives of two mods gives two candidates, even for
   * identical files: resolution then asks, and with no reply left it stops.
   */
  lemma SamePathTwoMods(path: string, a: string, b: string, tempDir: string)
    requires IsOtherFile(Member(path, false, true)) && '\\' !in path
    ensures var reg := RegisterAll(RegisterAll(map[], [Member(path, false, true)], a, tempDir), [Member(path, false, true)], b, tempDir);
      && reg[path] == [Candidate(a, StagedPath(tempDir, a, path)), Candidate(b, StagedPath(tempDir, b, path))]
      && ResolveFrom(SortedOf(reg.Keys), reg, []) == Failure(EndOfInput(path))
  {
    var m := Member(path, false, true);
    var ca := Candidate(a, StagedPath(tempDir, a, path));
    var cb := Candidate(b, StagedPath(tempDir, b, path));
    assert [m][..0] == [];
    assert RegisterAll(map[], [m][..0], a, tempDir) == map[];
    var reg1 := RegisterAll(map[], [m], a, tempDir);
    assert reg1 == Register(map[], m, a, tempDir);
    assert Listed(map[], path) + [ca] == [ca];
    assert reg1 == map[path := [ca]];
    assert RegisterAll(reg1, [m][..0], b, tempDir) == reg1;
    var reg := RegisterAll(reg1, [m], b, tempDir);
    assert reg == Register(reg1, m, b, tempDir);
    assert Listed(reg1, path) + [cb] == [ca, cb];
    assert reg == map[path := [ca, cb]];
    var ks := SortedOf(reg.Keys);
    SortedUnique(ks, [path]);
  }

  /**
   * When the first failing read is of a member whose path was not registered
   * before, the path is left with an empty list, so `resolve_other_files`
   * finds no reply in range for it and stops only when the replies run out.
   */
  lemma FailedReadNeverResolves(registry: Registry, members: seq<Member>, source: string, tempDir: string, k: nat,
                                replies: seq<Input>)
    requires FirstFailure(members, k) && IsOtherFile(members[k])
    requires NormalizePath(members[k].filename) !in RegisterAll(registry, members[..k], source, tempDir)
    ensures var reg := RegisterAll(registry, members[..k + 1], source, tempDir);
      && reg[NormalizePath(members[k].filename)] == []
      && ResolveFrom(SortedOf(reg.Keys), reg, replies).Failure?
  {
    ProcessStep(registry, members, source, tempDir, k);
    var reg := RegisterAll(registry, members[..k + 1], source, tempDir);
    var p := NormalizePath(members[k].filename);
    assert reg[p] == [];
    ResolveFromEmptyFails(SortedOf(reg.Keys), reg, replies, p);
  }

  /**
   * `resolve_other_files`: each registered path exactly once, in ascending
   * order, mapped to one of its own staged files; a path found in a single
   * archive takes its only file.
   */
  lemma ResolveOtherFilesSpec(reg: Registry, replies: seq<Input>, es: seq<Entry>, rest: seq<Input>)
    requires ResolveFrom(SortedOf(reg.Keys), reg, replies) == Success((es, rest))
    ensures forall i, j :: 0 <= i < j < |es| ==> Less(es[i].key, es[j].key)
    ensures forall p :: HasKey(es, p) <==> p in reg
    ensures forall i :: 0 <= i < |es| ==> es[i].key in reg && HasPayload(reg[es[i].key], es[i].value)
    ensures forall i :: 0 <= i < |es| && |reg[es[i].key]| == 1 ==> es[i].value == reg[es[i].key][0].payload
  {
    var ks := SortedOf(reg.Keys);
    ResolveFromSuccess(ks, reg, replies, es, rest);
    forall p ensures HasKey(es, p) <==> p in reg {
      if p in reg {
        var i :| 0 <= i < |ks| && ks[i] == p;
        assert es[i].key == p;
      }
    }
  }
}
