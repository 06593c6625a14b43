/** The audit of a bundled library's DT_NEEDED closure (packaging/audit_dependency_closure.py). */
module DependencyAudit {
  import opened Reachability

  type Name = string

  /** What readelf says about one regular file: its NEEDED names, or that it is no ELF object. */
  datatype Elf = Unreadable | Needs(names: seq<Name>)

  /** A directory entry. A link carries the name of the file in the directory that it resolves to, or
      None when it resolves outside. The named file may be gone. */
  datatype Target = Outside | Inside(name: Name)
  datatype Entry = File(elf: Elf) | Link(target: Target)

  /** The audited lib directory, and the names presumed to come from the host: ABI_ALLOWLIST in
      production. */
  datatype LibDir = LibDir(files: map<Name, Entry>, allowlist: set<Name>)

  const ABI_ALLOWLIST: set<Name> := {
    "ld-linux-x86-64.so.2", "linux-vdso.so.1", "libc.so.6", "libm.so.6", "libdl.so.2",
    "libpthread.so.0", "librt.so.1", "libresolv.so.2", "libutil.so.1"
  }

  /** What auditing one bundled name reads: through a link to its target, refused (like a file that
      readelf cannot parse) when the link leaves the directory or dangles. */
  function ReadNeeded(dir: LibDir, name: Name): Elf
    requires name in dir.files
  {
    match dir.files[name]
    case File(elf) => elf
    case Link(Outside) => Unreadable
    case Link(Inside(target)) =>
      if target in dir.files && dir.files[target].File? then dir.files[target].elf else Unreadable
  }

  /** The DT_NEEDED edges out of bundled, readable names. */
  ghost function Needed(dir: LibDir): Edges<Name> {
    map n | n in dir.files && ReadNeeded(dir, n).Needs? :: Elements(ReadNeeded(dir, n).names)
  }

  ghost function Closure(dir: LibDir, roots: set<Name>): set<Name> {
    ReachedFrom(Needed(dir), roots)
  }

  /** Some bundled name of the closure cannot be read: the audit raises ClosureAuditError. */
  ghost predicate IsBroken(dir: LibDir, roots: set<Name>) {
    exists n :: n in Closure(dir, roots) && n in dir.files && ReadNeeded(dir, n).Unreadable?
  }

  ghost function MissingNames(dir: LibDir, roots: set<Name>): set<Name> {
    Closure(dir, roots) - dir.files.Keys - dir.allowlist
  }

  /** The names --list-only prints. */
  ghost function RequiredBundled(dir: LibDir, roots: set<Name>): set<Name> {
    Closure(dir, roots) * dir.files.Keys - dir.allowlist
  }

  ghost predicate Passes(dir: LibDir, roots: set<Name>) {
    roots <= dir.files.Keys && !IsBroken(dir, roots) && MissingNames(dir, roots) == {}
  }

  /** Which of the given libraries need `name`. */
  ghost function RequestersAmong(dir: LibDir, libs: set<Name>, name: Name): set<Name> {
    set lib | lib in libs && lib in Needed(dir) && name in Needed(dir)[lib]
  }

  datatype AuditOutcome =
    | ClosureAuditError
    | Audited(bundled: set<Name>, missing: map<Name, seq<Name>>, seen: set<Name>)

  ghost predicate IsAudit(dir: LibDir, roots: set<Name>, outcome: AuditOutcome) {
    if IsBroken(dir, roots) then outcome.ClosureAuditError?
    else
      && outcome.Audited?
      && outcome.seen == Closure(dir, roots)
      && outcome.bundled == Closure(dir, roots) * dir.files.Keys
      && outcome.missing.Keys == MissingNames(dir, roots)
      && forall n | n in outcome.missing ::
           Elements(outcome.missing[n]) == RequestersAmong(dir, Closure(dir, roots), n)
  }

  predicate IsMissing(dir: LibDir, name: Name) { name !in dir.files && name !in dir.allowlist }

  function RequestersIn(missing: map<Name, seq<Name>>, name: Name): set<Name> {
    if name in missing then Elements(missing[name]) else {}
  }

  /** One library's needed names noted in the missing table. */
  ghost predicate IsNoted(dir: LibDir, lib: Name, needed: set<Name>,
                          missing: map<Name, seq<Name>>, noted: map<Name, seq<Name>>)
  {
    && (forall n :: n in noted <==> n in missing || (n in needed && IsMissing(dir, n)))
    && (forall n :: RequestersIn(noted, n) ==
                    RequestersIn(missing, n) + if n in needed && IsMissing(dir, n) then {lib} else {})
  }

  lemma NotedTwice(dir: LibDir, lib: Name, first: set<Name>, second: set<Name>, missing: map<Name, seq<Name>>,
                   middle: map<Name, seq<Name>>, noted: map<Name, seq<Name>>)
    requires IsNoted(dir, lib, first, missing, middle) && IsNoted(dir, lib, second, middle, noted)
    ensures IsNoted(dir, lib, first + second, missing, noted)
  {
  }

  /** missing.setdefault(name, []).append(lib), for a name neither bundled nor allowlisted. */
  function NoteName(dir: LibDir, lib: Name, missing: map<Name, seq<Name>>, name: Name): (noted: map<Name, seq<Name>>)
    ensures IsNoted(dir, lib, {name}, missing, noted)
  {
    if name in dir.files || name in dir.allowlist then missing
    else
      var requesters := if name in missing then missing[name] else [];
      ElementsAppend(requesters, [lib]);
      missing[name := requesters + [lib]]
  }

  method NoteNeeded(dir: LibDir, lib: Name, needed: seq<Name>, missing: map<Name, seq<Name>>)
    returns (noted: map<Name, seq<Name>>)
    ensures IsNoted(dir, lib, Elements(needed), missing, noted)
  {
    noted := missing;
    for i := 0 to |needed|
      invariant IsNoted(dir, lib, Elements(needed[..i]), missing, noted)
    {
      var name := needed[i];
      assert Elements(needed[..i + 1]) == Elements(needed[..i]) + {name} by {
        assert needed[..i + 1] == needed[..i] + [name];
      }
      ghost var before := noted;
      noted := NoteName(dir, lib, noted, name);
      NotedTwice(dir, lib, Elements(needed[..i]), {name}, missing, before, noted);
    }
    assert needed[..|needed|] == needed;
  }

  /** The audit under way, once `seen` has been expanded and `open` queued. */
  ghost predicate IsAuditState(dir: LibDir, roots: set<Name>, seen: set<Name>, open: set<Name>,
                               bundled: set<Name>, missing: map<Name, seq<Name>>)
  {
    && IsFrontier(Needed(dir), roots, seen, open)
    && bundled == seen * dir.files.Keys && bundled <= Needed(dir).Keys
    && MissingSoFar(dir, seen, open, missing)
  }

  ghost predicate MissingSoFar(dir: LibDir, seen: set<Name>, open: set<Name>, missing: map<Name, seq<Name>>) {
    && (forall n | n in missing :: IsMissing(dir, n) && n in seen + open)
    && (forall n | n in seen && IsMissing(dir, n) :: n in missing)
    && (forall n | IsMissing(dir, n) :: RequestersIn(missing, n) == RequestersAmong(dir, seen, n))
  }

  lemma MissingAfterAbsent(dir: LibDir, seen: set<Name>, open: set<Name>, missing: map<Name, seq<Name>>,
                           name: Name, noted: map<Name, seq<Name>>)
    requires MissingSoFar(dir, seen, open + {name}, missing) && name !in dir.files && name !in seen
    requires noted == if name in missing || name in dir.allowlist then missing else missing[name := []]
    ensures MissingSoFar(dir, seen + {name}, open, noted)
  {
    forall n | IsMissing(dir, n)
      ensures RequestersIn(noted, n) == RequestersAmong(dir, seen + {name}, n)
    {
      assert RequestersIn(noted, n) == RequestersIn(missing, n);
      assert RequestersAmong(dir, seen + {name}, n) == RequestersAmong(dir, seen, n);
    }
  }

  lemma MissingAfterBundled(dir: LibDir, seen: set<Name>, open: set<Name>, missing: map<Name, seq<Name>>,
                            name: Name, needed: set<Name>, noted: map<Name, seq<Name>>)
    requires MissingSoFar(dir, seen, open + {name}, missing)
    requires name in dir.files && name in Needed(dir) && needed == Needed(dir)[name]
    requires IsNoted(dir, name, needed, missing, noted)
    ensures MissingSoFar(dir, seen + {name}, open + needed, noted)
  {
    forall n | IsMissing(dir, n)
      ensures RequestersIn(noted, n) == RequestersAmong(dir, seen + {name}, n)
    {
      RequestersGrow(dir, seen, name, n);
    }
  }

  lemma RequestersGrow(dir: LibDir, seen: set<Name>, name: Name, n: Name)
    requires name in Needed(dir)
    ensures RequestersAmong(dir, seen + {name}, n) ==
            RequestersAmong(dir, seen, n) + if n in Needed(dir)[name] then {name} else {}
  {
  }

  lemma VisitAgain(dir: LibDir, roots: set<Name>, seen: set<Name>, open: set<Name>,
                   bundled: set<Name>, missing: map<Name, seq<Name>>, name: Name)
    requires IsAuditState(dir, roots, seen, open + {name}, bundled, missing) && name in seen
    ensures IsAuditState(dir, roots, seen, open, bundled, missing)
  {
    FrontierSkip(Needed(dir), roots, seen, open, name);
    assert seen + (open + {name}) == seen + open;
  }

  lemma VisitAbsent(dir: LibDir, roots: set<Name>, seen: set<Name>, open: set<Name>,
                    bundled: set<Name>, missing: map<Name, seq<Name>>, name: Name, noted: map<Name, seq<Name>>)
    requires IsAuditState(dir, roots, seen, open + {name}, bundled, missing)
    requires name !in dir.files && name !in seen
    requires noted == if name in missing || name in dir.allowlist then missing else missing[name := []]
    ensures IsAuditState(dir, roots, seen + {name}, open, bundled, noted)
  {
    FrontierVisit(Needed(dir), roots, seen, open, name, {});
    assert open + {} == open;
    MissingAfterAbsent(dir, seen, open, missing, name, noted);
  }

  lemma VisitBundled(dir: LibDir, roots: set<Name>, seen: set<Name>, open: set<Name>,
                     bundled: set<Name>, missing: map<Name, seq<Name>>, name: Name, needed: set<Name>,
                     noted: map<Name, seq<Name>>)
    requires IsAuditState(dir, roots, seen, open + {name}, bundled, missing)
    requires name in dir.files && name in Needed(dir) && needed == Needed(dir)[name]
    requires MissingSoFar(dir, seen + {name}, open + needed, noted)
    ensures IsAuditState(dir, roots, seen + {name}, open + needed, bundled + {name}, noted)
  {
    FrontierVisit(Needed(dir), roots, seen, open, name, needed);
    assert (seen + {name}) * dir.files.Keys == seen * dir.files.Keys + {name};
  }

  lemma VisitedAll(dir: LibDir, roots: set<Name>, seen: set<Name>, bundled: set<Name>, missing: map<Name, seq<Name>>)
    requires IsAuditState(dir, roots, seen, {}, bundled, missing)
    ensures IsAudit(dir, roots, Audited(bundled, missing, seen))
  {
    FrontierDone(Needed(dir), roots, seen);
    forall n | n in missing ensures Elements(missing[n]) == RequestersAmong(dir, seen, n) {
      assert RequestersIn(missing, n) == Elements(missing[n]);
    }
  }

  /** audit_closure. */
  method AuditClosure(dir: LibDir, roots: seq<Name>) returns (outcome: AuditOutcome)
    ensures IsAudit(dir, Elements(roots), outcome)
  {
    ghost var start := Elements(roots);
    var bundled: set<Name> := {};
    var missing: map<Name, seq<Name>> := map[];
    var queue := roots;
    var seen: set<Name> := {};
    FrontierStart(Needed(dir), start);
    while |queue| > 0
      invariant IsAuditState(dir, start, seen, Elements(queue), bundled, missing)
      decreases Closure(dir, start) - seen, |queue|
    {
      var name := queue[|queue| - 1];
      ElementsLast(queue);
      queue := queue[..|queue| - 1];
      if name in seen {
        VisitAgain(dir, start, seen, Elements(queue), bundled, missing, name);
        continue;
      }
      if name !in dir.files {
        var noted := if name in missing || name in dir.allowlist then missing else missing[name := []];
        VisitAbsent(dir, start, seen, Elements(queue), bundled, missing, name, noted);
        seen, missing := seen + {name}, noted;
        continue;
      }
      var elf := ReadNeeded(dir, name);
      if elf.Unreadable? {
        return ClosureAuditError;
      }
      var noted := NoteNeeded(dir, name, elf.names, missing);
      ghost var needed := Elements(elf.names);
      MissingAfterBundled(dir, seen, Elements(queue), missing, name, needed, noted);
      VisitBundled(dir, start, seen, Elements(queue), bundled, missing, name, needed, noted);
      ElementsAppend(queue, elf.names);
      seen, bundled := seen + {name}, bundled + {name};
      queue, missing := queue + elf.names, noted;
    }
    VisitedAll(dir, start, seen, bundled, missing);
    outcome := Audited(bundled, missing, seen);
  }

  /** main: the exit status, and the names --list-only would print. */
  method RunAudit(dir: LibDir, roots: seq<Name>) returns (exit: int, required: set<Name>)
    ensures exit == 0 <==> Passes(dir, Elements(roots))
    ensures exit == 1 <==>
      Elements(roots) <= dir.files.Keys && !IsBroken(dir, Elements(roots)) && MissingNames(dir, Elements(roots)) != {}
    ensures exit in {0, 1, 2}
    ensures exit != 2 ==> required == RequiredBundled(dir, Elements(roots))
  {
    for i := 0 to |roots|
      invariant Elements(roots[..i]) <= dir.files.Keys
    {
      assert roots[..i + 1] == roots[..i] + [roots[i]];
      if roots[i] !in dir.files {
        return 2, {};
      }
    }
    assert roots[..|roots|] == roots;
    var outcome := AuditClosure(dir, roots);
    if outcome.ClosureAuditError? {
      return 2, {};
    }
    required := outcome.bundled - dir.allowlist;
    exit := if outcome.missing.Keys != {} then 1 else 0;
  }

  // ---- What the exit status means for the packaged libraries ----

  function Without(dir: LibDir, name: Name): LibDir { dir.(files := dir.files - {name}) }

  /** Removing a file leaves every other name as readable as before, unless it was a link to it. */
  lemma NeededAfterRemoval(dir: LibDir, removed: Name, name: Name)
    requires name in dir.files && name != removed
    requires ReadNeeded(Without(dir, removed), name).Needs? || dir.files[name] != Link(Inside(removed))
    ensures ReadNeeded(Without(dir, removed), name) == ReadNeeded(dir, name)
    ensures name in Needed(Without(dir, removed)) <==> name in Needed(dir)
    ensures name in Needed(dir) ==> Needed(Without(dir, removed))[name] == Needed(dir)[name]
  {
  }

  /** If the closure after the removal is unbroken and misses the removed name, it has lost nothing. */
  lemma ClosureUnchanged(dir: LibDir, roots: set<Name>, removed: Name)
    requires !IsBroken(Without(dir, removed), roots)
    requires removed !in Closure(Without(dir, removed), roots)
    ensures Closure(dir, roots) <= Closure(Without(dir, removed), roots)
  {
    var after := Without(dir, removed);
    var reached := Closure(after, roots);
    ReachedIsClosed(Needed(after), roots);
    forall n | n in reached && n in Needed(dir) ensures Needed(dir)[n] <= reached {
      assert ReadNeeded(after, n).Needs?;
      NeededAfterRemoval(dir, removed, n);
    }
    ReachedIsLeast(Needed(dir), roots, reached);
  }

  /** Removing a file adds nothing to the closure. */
  lemma ClosureShrinks(dir: LibDir, roots: set<Name>, removed: Name)
    ensures Closure(Without(dir, removed), roots) <= Closure(dir, roots)
  {
    var closure := Closure(dir, roots);
    ReachedIsClosed(Needed(dir), roots);
    forall n | n in closure && n in Needed(Without(dir, removed))
      ensures Needed(Without(dir, removed))[n] <= closure
    {
      NeededAfterRemoval(dir, removed, n);
    }
    ReachedIsLeast(Needed(Without(dir, removed)), roots, closure);
  }

  /** A link of the closure resolves to the name. */
  ghost predicate IsLinkedTo(dir: LibDir, roots: set<Name>, name: Name) {
    exists n :: n in Closure(dir, roots) && n in dir.files && dir.files[n] == Link(Inside(name))
  }

  lemma BrokenByLink(dir: LibDir, roots: set<Name>, removed: Name, name: Name)
    requires !IsBroken(dir, roots) && name in Closure(Without(dir, removed), roots)
    requires name in Without(dir, removed).files && ReadNeeded(Without(dir, removed), name).Unreadable?
    ensures dir.files[name] == Link(Inside(removed))
  {
    ClosureShrinks(dir, roots, removed);
    assert ReadNeeded(dir, name).Needs?;
  }

  /** Removing a name from a directory that passes breaks the audit exactly if a link still reached
      resolves to it. */
  lemma RemovalBreaks(dir: LibDir, roots: set<Name>, removed: Name)
    requires Passes(dir, roots)
    ensures IsBroken(Without(dir, removed), roots) <==> IsLinkedTo(Without(dir, removed), roots, removed)
  {
    var after := Without(dir, removed);
    if IsBroken(after, roots) {
      var n :| n in Closure(after, roots) && n in after.files && ReadNeeded(after, n).Unreadable?;
      BrokenByLink(dir, roots, removed, n);
      assert after.files[n] == Link(Inside(removed));
    } else {
      forall n | n in Closure(after, roots) && n in after.files ensures after.files[n] != Link(Inside(removed)) {
        assert ReadNeeded(after, n).Needs?;
      }
    }
  }

  /** The docstring's promise: every name --list-only prints is one whose removal makes the audit
      fail. The audit of the closure then reports exactly that name missing, unless a link still reached
      resolves to it: then it refuses to go on. (A removed root is refused before the audit.) */
  lemma RemovingRequiredFails(dir: LibDir, roots: set<Name>, removed: Name)
    requires Passes(dir, roots) && removed in RequiredBundled(dir, roots)
    ensures !Passes(Without(dir, removed), roots)
    ensures IsBroken(Without(dir, removed), roots) <==> IsLinkedTo(Without(dir, removed), roots, removed)
    ensures !IsBroken(Without(dir, removed), roots) ==> MissingNames(Without(dir, removed), roots) == {removed}
    ensures removed in roots <==> !(roots <= Without(dir, removed).files.Keys)
  {
    var after := Without(dir, removed);
    RemovalBreaks(dir, roots, removed);
    ClosureShrinks(dir, roots, removed);
    if !IsBroken(after, roots) {
      if removed !in Closure(after, roots) {
        ClosureUnchanged(dir, roots, removed);
      }
      assert removed in MissingNames(after, roots);
      forall n | n in MissingNames(after, roots) && n != removed ensures n in MissingNames(dir, roots) {
      }
    }
  }

  /** Conversely the list is complete: when no link of the closure resolves to the removed file and it
      is not a root, the audit still passes exactly if the file was not listed. */
  lemma RemovalFailsExactlyForRequired(dir: LibDir, roots: set<Name>, removed: Name)
    requires Passes(dir, roots) && removed !in roots
    requires forall n | n in Closure(dir, roots) && n in dir.files :: dir.files[n] != Link(Inside(removed))
    ensures Passes(Without(dir, removed), roots) <==> removed !in RequiredBundled(dir, roots)
  {
    if removed in RequiredBundled(dir, roots) {
      RemovingRequiredFails(dir, roots, removed);
    } else {
      ClosureShrinks(dir, roots, removed);
      var after := Without(dir, removed);
      forall n | n in Closure(after, roots) && n in after.files ensures ReadNeeded(after, n).Needs? {
        NeededAfterRemoval(dir, removed, n);
      }
    }
  }
}
