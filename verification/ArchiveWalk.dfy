/** The recursive archive walk under global budgets. What the archive libraries would parse is given as a table of
    contents: a value may contain itself, so only the depth limit ends the recursion. */
module ArchiveWalk {
  import opened Bytes
  import opened ArchivePreflight

  const MAX_ERRORS: nat := 32
  const MAX_HEADERS: nat := 10_000

  /** A special record without data, which only TAR has, is skipped silently. */
  datatype EntryKind = Directory | Link | Special(empty: bool) | Regular

  /** What decompressing an entry would give: a value, its true size, and whether the stream is sound. */
  datatype Body = Body(value: nat, size: nat, sound: bool)

  datatype Entry = Entry(kind: EntryKind, safeName: bool, declared: int, body: Body)

  /** What a value holds: nothing further, the members of an archive that its parser would list, or one
      compressed body. */
  datatype Content = Plain | Members(archive: Archive, entries: seq<Entry>) | Compressed(opens: bool, body: Body)

  datatype Limits = Limits(maxDepth: nat, maxEntryBytes: nat, maxExpandedBytes: nat, maxFiles: nat)

  /** A value under walk. */
  datatype Spool = Spool(id: nat, value: nat, size: nat)

  /** A body is accepted when its declared and true sizes fit the entry limit and what is left of the expansion budget,
      the stream is sound, and the declaration, if there is one, is true. */
  predicate Fits(limits: Limits, expanded: nat, declared: int, body: Body) {
    && -1 <= declared <= limits.maxEntryBytes && expanded + declared <= limits.maxExpandedBytes
    && body.size <= limits.maxEntryBytes && expanded + body.size <= limits.maxExpandedBytes
    && body.sound && (declared >= 0 ==> body.size == declared)
  }

  function Total(sizes: seq<nat>): nat {
    if sizes == [] then 0 else Total(sizes[..|sizes| - 1]) + sizes[|sizes| - 1]
  }

  lemma TotalNext(sizes: seq<nat>, n: nat)
    ensures Total(sizes + [n]) == Total(sizes) + n
  {
    assert (sizes + [n])[..|sizes|] == sizes;
  }

  // ---------------------------------------------------------------------------------------
  // What a walk should find

  /** The leaves below a value, in order, by their sizes; the bytes of all bodies and the records of all archives on the
      way; how many files there must be room for; and whether nothing on the way is unsound. */
  datatype Plan = Plan(leaves: seq<nat>, bytes: nat, headers: nat, files: nat, fine: bool)

  const NOTHING := Plan([], 0, 0, 0, true)

  function Then(a: Plan, b: Plan): Plan {
    Plan(a.leaves + b.leaves, a.bytes + b.bytes, a.headers + b.headers, Max(a.files, |a.leaves| + b.files),
         a.fine && b.fine)
  }

  function Max(a: nat, b: nat): nat {
    if a < b then b else a
  }

  /** The number of physical records, if there is one. */
  ghost function Records(archive: Archive): nat {
    if n: nat :| HasRecords(archive, n) then n else 0
  }

  /** An archive within its own limits, whose parser lists what its directory holds. */
  ghost predicate ArchiveFine(archive: Archive, count: nat) {
    Acceptable(archive, Records(archive), MAX_HEADERS) && (archive.Zip? ==> count == Records(archive))
  }

  predicate BodyFine(limits: Limits, declared: int, body: Body) {
    && -1 <= declared <= MAX_INT64 && (declared >= 0 ==> declared == body.size)
    && body.size <= limits.maxEntryBytes && body.sound
  }

  /** Values nested too deeply are not fine and hold nothing. */
  ghost function PlanOf(limits: Limits, contents: nat -> Content, value: nat, size: nat, depth: nat): Plan
    decreases limits.maxDepth + 1 - depth, 3, 0
  {
    if depth > limits.maxDepth then NOTHING.(fine := false)
    else
      match contents(value)
      case Plain => Plan([size], 0, 0, 1, true)
      case Members(archive, entries) => ArchivePlan(limits, contents, archive, entries, depth)
      case Compressed(opens, body) => BodyPlan(limits, contents, opens, -1, body, depth)
  }

  /** The bytes of a body and what is below it. */
  ghost function BodyPlan(limits: Limits, contents: nat -> Content, opens: bool, declared: int, body: Body,
                          depth: nat): Plan
    requires depth <= limits.maxDepth
    decreases limits.maxDepth + 1 - depth, 0, 0
  {
    Then(Plan([], body.size, 0, 0, opens && BodyFine(limits, declared, body)),
         PlanOf(limits, contents, body.value, body.size, depth + 1))
  }

  ghost function ArchivePlan(limits: Limits, contents: nat -> Content, archive: Archive, entries: seq<Entry>,
                             depth: nat): Plan
    requires depth <= limits.maxDepth
    decreases limits.maxDepth + 1 - depth, 2, 0
  {
    Then(Plan([], 0, Records(archive), 0, ArchiveFine(archive, |entries|)),
         MemberPlan(limits, contents, entries, |entries|, depth))
  }

  /** The first `n` members. */
  ghost function MemberPlan(limits: Limits, contents: nat -> Content, entries: seq<Entry>, n: nat, depth: nat): Plan
    requires n <= |entries| && depth <= limits.maxDepth
    decreases limits.maxDepth + 1 - depth, 1, n
  {
    if n == 0 then NOTHING
    else Then(MemberPlan(limits, contents, entries, n - 1, depth), EntryPlan(limits, contents, entries[n - 1], depth))
  }

  /** Directories and empty special records hold nothing; a regular member is only opened while there is room for a
      file. */
  ghost function EntryPlan(limits: Limits, contents: nat -> Content, entry: Entry, depth: nat): Plan
    requires depth <= limits.maxDepth
    decreases limits.maxDepth + 1 - depth, 1, 0
  {
    if entry.kind.Directory? || entry.kind == Special(true) then NOTHING
    else if !entry.kind.Regular? then NOTHING.(fine := false)
    else
      var plan := BodyPlan(limits, contents, entry.safeName, entry.declared, entry.body, depth);
      plan.(files := Max(1, plan.files))
  }

  lemma {:induction false} MemberPlanGrows(limits: Limits, contents: nat -> Content, entries: seq<Entry>, m: nat,
                                           n: nat, depth: nat)
    requires m <= n <= |entries| && depth <= limits.maxDepth
    ensures Within(MemberPlan(limits, contents, entries, m, depth), MemberPlan(limits, contents, entries, n, depth))
  {
    if m < n { MemberPlanGrows(limits, contents, entries, m, n - 1, depth); }
  }

  /** Whatever has room for all of `b` has room for `a`. */
  predicate Within(a: Plan, b: Plan) {
    a.bytes <= b.bytes && a.headers <= b.headers && a.files <= b.files && (b.fine ==> a.fine)
  }

  lemma MemberNext(limits: Limits, contents: nat -> Content, entries: seq<Entry>, i: nat, depth: nat, plan: Plan,
                   next: Plan)
    requires i < |entries| && depth <= limits.maxDepth
    requires plan == MemberPlan(limits, contents, entries, i, depth)
    requires next == EntryPlan(limits, contents, entries[i], depth)
    ensures Then(plan, next) == MemberPlan(limits, contents, entries, i + 1, depth)
    ensures Within(Then(plan, next), MemberPlan(limits, contents, entries, |entries|, depth))
  {
    MemberPlanGrows(limits, contents, entries, i + 1, |entries|, depth);
  }

  class WalkState {
    const limits: Limits
    const contents: nat -> Content
    /** Whether reads, closes and callbacks may fail and the walk may be cancelled. */
    const faults: bool
    var expanded: nat
    var files: nat
    var headers: nat
    var errors: nat
    var rejected: nat
    var terminal: bool
    /** The sizes of the visited leaves, in order. */
    var visits: seq<nat>
    /** Everything ever reported as a gap in coverage, retained or not. */
    ghost var reported: nat
    /** Spools created so far, and those not yet closed. */
    var created: nat
    ghost var live: set<nat>

    /** The global budgets. */
    ghost predicate Valid()
      reads this
    {
      && expanded <= limits.maxExpandedBytes && Total(visits) <= expanded
      && files == |visits| && files <= limits.maxFiles
      && headers <= MAX_HEADERS && errors <= MAX_ERRORS && (errors == 0 <==> reported == 0)
      && (rejected >= MAX_ERRORS ==> terminal)
      && forall id :: id in live ==> id < created
    }

    constructor (limits: Limits, contents: nat -> Content, faults: bool)
      ensures Valid() && !terminal && visits == [] && live == {} && reported == 0 && expanded == 0 && headers == 0
      ensures this.limits == limits && this.contents == contents && this.faults == faults && fresh(this)
    {
      this.limits, this.contents, this.faults := limits, contents, faults;
      expanded, files, headers, errors, rejected, terminal, visits := 0, 0, 0, 0, 0, false, [];
      created, live, reported := 0, {}, 0;
    }

    /** Retains an error while there is room. */
    method Partial()
      requires Valid()
      modifies this`errors, this`reported
      ensures Valid() && errors == (if old(errors) < MAX_ERRORS then old(errors) + 1 else old(errors))
      ensures reported == old(reported) + 1
    {
      if errors < MAX_ERRORS { errors := errors + 1; }
      reported := reported + 1;
    }

    method Stop()
      requires Valid()
      modifies this`errors, this`terminal, this`reported
      ensures Valid() && terminal && reported == if old(terminal) then old(reported) else old(reported) + 1
    {
      if terminal { return; }
      Partial();
      terminal := true;
    }

    method RejectBudget()
      requires Valid()
      modifies this`errors, this`terminal, this`rejected, this`reported
      ensures Valid() && rejected == old(rejected) + 1 && reported == old(reported) + 1
      ensures terminal <==> old(terminal) || rejected >= MAX_ERRORS
    {
      Partial();
      rejected := rejected + 1;
      if rejected >= MAX_ERRORS { terminal := true; }
    }

    /** Copies a body into a new spool, which is closed again unless the body has the declared size and keeps
        the limit. */
    method SpoolFromReader(declared: int, limit: nat, body: Body)
      returns (spool: Option<Spool>, tooLarge: bool, cancelled: bool)
      requires Valid()
      modifies this`created, this`live
      ensures Valid() && old(created) <= created
      ensures spool.None? ==> live == old(live)
      ensures !faults ==> !cancelled
      ensures !cancelled ==>
                (spool.Some? <==>
                 -1 <= declared <= limit && body.size <= limit && body.sound
                   && (declared >= 0 ==> body.size == declared))
      ensures tooLarge <==> declared > limit || (declared >= -1 && body.size > limit)
      ensures spool.Some? ==>
                && !cancelled && spool.value == Spool(old(created), body.value, body.size)
                && created == old(created) + 1 && live == old(live) + {old(created)}
    {
      spool, tooLarge, cancelled := None, false, false;
      if declared < -1 { return; }
      if declared > limit { return None, true, false; }
      var opening := Spool(created, body.value, body.size);
      created, live := created + 1, live + {created};
      cancelled := Fails(faults);
      tooLarge := body.size > limit;
      if cancelled || tooLarge || !body.sound || (declared >= 0 && body.size != declared) {
        var cleanupFailed := CloseSpool(opening);
        return;
      }
      spool := Some(opening);
    }

    /** Spools a body within the entry limit and what is left of the expansion budget. */
    method ExpandedSpool(declared: int, body: Body) returns (spool: Option<Spool>, failed: bool)
      requires Valid()
      modifies this`errors, this`terminal, this`rejected, this`expanded, this`created, this`live, this`reported
      ensures Valid() && (old(terminal) ==> terminal) && old(expanded) <= expanded && old(reported) <= reported
      ensures spool.None? ==>
                live == old(live) && expanded == old(expanded) && (failed || reported == old(reported) + 1)
      ensures !failed ==> (spool.Some? <==> Fits(limits, old(expanded), declared, body))
      ensures !faults ==> !failed
      ensures spool.Some? ==>
                && !failed && terminal == old(terminal) && reported == old(reported)
                && spool.value.id !in old(live) && live == old(live) + {spool.value.id}
                && spool.value.size <= limits.maxEntryBytes && expanded == old(expanded) + spool.value.size
                && spool.value.value == body.value && spool.value.size == body.size
                && (declared >= 0 ==> body.size == declared)
    {
      spool, failed := None, false;
      if declared > limits.maxEntryBytes {
        Partial();
        return;
      }
      var remaining := limits.maxExpandedBytes - expanded;
      if declared >= 0 && declared > remaining {
        RejectBudget();
        return;
      }
      var limit := if remaining < limits.maxEntryBytes then remaining else limits.maxEntryBytes;
      var tooLarge;
      spool, tooLarge, failed := SpoolFromReader(declared, limit, body);
      if failed { return; }
      if tooLarge {
        RejectBudget();
      } else if spool.None? {
        Partial();
      } else {
        expanded := expanded + body.size;
      }
    }

    /** Closes a spool, which must still be open. */
    method CloseSpool(spool: Spool) returns (cleanupFailed: bool)
      requires Valid() && spool.id in live
      modifies this`live
      ensures Valid() && live == old(live) - {spool.id} && (!faults ==> !cleanupFailed)
    {
      live := live - {spool.id};
      cleanupFailed := Fails(faults);
    }

    /** Visits one leaf, unless the file limit is reached. */
    method EmitEntry(size: nat) returns (failed: bool)
      requires Valid() && !terminal && Total(visits) + size <= expanded
      modifies this`files, this`visits, this`errors, this`terminal, this`reported
      ensures Valid() && old(reported) <= reported
      ensures old(files) < limits.maxFiles ==> visits == old(visits) + [size] && !terminal && reported == old(reported)
      ensures old(files) >= limits.maxFiles ==> visits == old(visits) && terminal
      ensures !faults ==> !failed
    {
      if files >= limits.maxFiles {
        Stop();
        return false;
      }
      var more := visits + [size];
      TotalNext(visits, size);
      files, visits := files + 1, more;
      failed := Fails(faults);
    }

    /** What every part of the walk keeps: budgets, monotone counters, no open spool left behind, and no visit once
        terminal. */
    twostate predicate Kept()
      reads this
    {
      && old(Valid()) && Valid() && live == old(live)
      && old(visits) <= visits && old(expanded) <= expanded && old(reported) <= reported
      && (old(terminal) ==> terminal && visits == old(visits))
    }

    /** Nothing was reported and the walk goes on: then exactly the given leaves were visited. */
    twostate predicate NothingSkipped(failed: bool, leaves: seq<nat>)
      reads this
    {
      !failed && !terminal && reported == old(reported) ==> visits == old(visits) + leaves
    }

    /** Nothing fails, and nothing that is planned is unsound or exceeds a budget. */
    ghost predicate Clear(plan: Plan)
      reads this
    {
      && !faults && plan.fine && !terminal
      && expanded + plan.bytes <= limits.maxExpandedBytes && headers + plan.headers <= MAX_HEADERS
      && files + plan.files <= limits.maxFiles
    }

    /** Exactly the planned leaves were visited and bytes and headers charged, and nothing was reported. */
    twostate predicate Went(failed: bool, plan: Plan)
      reads this
    {
      && !failed && !terminal && reported == old(reported) && visits == old(visits) + plan.leaves
      && expanded == old(expanded) + plan.bytes && headers == old(headers) + plan.headers
    }

    /** Walks one value: a leaf is visited, an archive is walked one level deeper. */
    method Walk(spool: Spool, depth: nat, ghost plan: Plan) returns (failed: bool)
      requires Valid() && depth <= limits.maxDepth + 1
      requires contents(spool.value).Plain? ==> Total(visits) + spool.size <= expanded
      requires plan == PlanOf(limits, contents, spool.value, spool.size, depth)
      modifies this
      ensures Kept() && NothingSkipped(failed, plan.leaves)
      ensures old(Clear(plan)) ==> Went(failed, plan)
      decreases limits.maxDepth + 1 - depth, 3
    {
      failed := false;
      if terminal { return; }
      failed := Fails(faults);
      if failed { return; }
      if depth > limits.maxDepth {
        Partial();
        return;
      }
      failed := Fails(faults);
      if failed { return; }
      match contents(spool.value)
      case Plain => failed := EmitEntry(spool.size);
      case Members(archive, entries) => failed := WalkMembers(archive, entries, depth, plan);
      case Compressed(opens, body) => failed := WalkCompressed(opens, body, depth, plan);
    }

    /** Counts the physical records of an archive and charges them to the header budget of the whole walk. */
    method ChargeHeaders(archive: Archive) returns (r: Count)
      requires Valid()
      modifies this`headers
      ensures Valid()
      ensures if r.Counted? then HasRecords(archive, r.records) && headers == old(headers) + r.records
              else headers == old(headers)
      ensures !faults && Acceptable(archive, Records(archive), MAX_HEADERS - old(headers)) ==>
                r == Counted(Records(archive))
    {
      r := Preflight(archive, MAX_HEADERS - headers, faults);
      if r.Counted? { headers := headers + r.records; }
    }

    /** ZIP and TAR: the preflight bounds headers and metadata, then each regular entry is spooled and walked. A ZIP
        must list as many members as its directory has records. */
    method WalkMembers(archive: Archive, entries: seq<Entry>, depth: nat, ghost plan: Plan) returns (failed: bool)
      requires Valid() && depth <= limits.maxDepth
      requires plan == ArchivePlan(limits, contents, archive, entries, depth)
      modifies this
      ensures Kept() && NothingSkipped(failed, plan.leaves)
      ensures old(Clear(plan)) ==> Went(failed, plan)
      decreases limits.maxDepth + 1 - depth, 2
    {
      ghost var members := MemberPlan(limits, contents, entries, |entries|, depth);
      var go;
      go, failed := OpenArchive(archive, |entries|, plan, members);
      if go { failed := WalkEach(entries, depth, members); }
    }

    /** The preflight of an archive that lists so many members: whether to go on with them. */
    method OpenArchive(archive: Archive, listed: nat, ghost plan: Plan, ghost members: Plan)
      returns (go: bool, failed: bool)
      requires Valid() && plan == Then(Plan([], 0, Records(archive), 0, ArchiveFine(archive, listed)), members)
      modifies this`headers, this`errors, this`terminal, this`reported
      ensures Valid() && old(reported) <= reported && (old(terminal) ==> terminal) && old(headers) <= headers
      ensures go ==> !failed && terminal == old(terminal) && reported == old(reported)
      ensures !go ==> failed || terminal
      ensures plan.leaves == members.leaves && plan.bytes == members.bytes && plan.files == members.files
      ensures old(Clear(plan)) ==> go && members.fine && headers + members.headers == old(headers) + plan.headers
    {
      ArchiveFirst(plan, archive, listed, members, headers);
      failed := false;
      var count := ChargeHeaders(archive);
      if count.Unreadable? { return false, true; }
      if count.OverLimit? {
        Stop();
        return false, false;
      }
      failed := archive.Zip? && listed != count.records;
      go := !failed;
    }

    /** The members of an archive, in order. */
    method WalkEach(entries: seq<Entry>, depth: nat, ghost all: Plan) returns (failed: bool)
      requires Valid() && depth <= limits.maxDepth
      requires all == MemberPlan(limits, contents, entries, |entries|, depth)
      modifies this
      ensures Kept() && NothingSkipped(failed, all.leaves)
      ensures old(Clear(all)) ==> Went(failed, all)
      decreases limits.maxDepth + 1 - depth, 1, 1
    {
      ghost var clear, plan := Clear(all), NOTHING;
      failed := false;
      for i := 0 to |entries|
        invariant plan == MemberPlan(limits, contents, entries, i, depth)
        invariant Kept() && NothingSkipped(false, plan.leaves) && (clear ==> Went(false, plan)) && !failed
      {
        if terminal { return; }
        failed := Fails(faults);
        if failed { return; }
        ghost var next := EntryPlan(limits, contents, entries[i], depth);
        MemberNext(limits, contents, entries, i, depth, plan, next);
        var done;
        done, failed := WalkEntry(entries[i], depth, next);
        if done { return; }
        ConcatAssoc(old(visits), plan.leaves, next.leaves);
        plan := Then(plan, next);
      }
    }

    method WalkEntry(entry: Entry, depth: nat, ghost plan: Plan) returns (done: bool, failed: bool)
      requires Valid() && depth <= limits.maxDepth
      requires plan == EntryPlan(limits, contents, entry, depth) && !terminal
      modifies this
      ensures Kept() && NothingSkipped(failed, plan.leaves)
      ensures done ==> failed || terminal
      ensures failed ==> done
      ensures old(Clear(plan)) ==> Went(failed, plan)
      decreases limits.maxDepth + 1 - depth, 1, 0
    {
      done, failed := false, false;
      if entry.kind.Directory? || entry.kind == Special(true) { return; }
      if !entry.kind.Regular? || !entry.safeName || entry.declared > MAX_INT64 {
        Partial();
        return;
      }
      if files >= limits.maxFiles {
        Stop();
        return true, false;
      }
      done, failed := WalkRegular(entry, depth, BodyPlan(limits, contents, true, entry.declared, entry.body, depth));
    }

    /** A regular member is spooled and walked. */
    method WalkRegular(entry: Entry, depth: nat, ghost plan: Plan) returns (done: bool, failed: bool)
      requires Valid() && depth <= limits.maxDepth && !terminal
      requires plan == BodyPlan(limits, contents, true, entry.declared, entry.body, depth)
      modifies this
      ensures Kept() && NothingSkipped(failed, plan.leaves)
      ensures done ==> failed || terminal
      ensures failed ==> done
      ensures old(Clear(plan)) ==> Went(failed, plan)
      decreases limits.maxDepth + 1 - depth, 0
    {
      ghost var inner := PlanOf(limits, contents, entry.body.value, entry.body.size, depth + 1);
      BodyFirst(limits, true, entry.declared, entry.body, inner, plan);
      done, failed := false, false;
      var unopened := Fails(faults);
      if unopened { Partial(); return; }
      var spool;
      spool, failed := ExpandedSpool(entry.declared, entry.body);
      if failed || spool.None? { return failed, failed; }
      var unclosed := Fails(faults);
      if unclosed {
        Partial();
        CloseCounted(spool.value);
        return;
      }
      failed := Walk(spool.value, depth + 1, inner);
      CloseCounted(spool.value);
      done := failed;
    }

    /** Closing may itself fail, which is one more retained error. */
    method CloseCounted(spool: Spool)
      requires Valid() && spool.id in live
      modifies this`live, this`errors, this`reported
      ensures Valid() && live == old(live) - {spool.id} && old(reported) <= reported
      ensures !faults ==> reported == old(reported)
    {
      var cleanupFailed := CloseSpool(spool);
      if cleanupFailed { Partial(); }
    }

    /** Gzip and bzip2: one body of unknown size. */
    method WalkCompressed(opens: bool, body: Body, depth: nat, ghost plan: Plan) returns (failed: bool)
      requires Valid() && depth <= limits.maxDepth && plan == BodyPlan(limits, contents, opens, -1, body, depth)
      modifies this
      ensures Kept() && NothingSkipped(failed, plan.leaves)
      ensures old(Clear(plan)) ==> Went(failed, plan)
      decreases limits.maxDepth + 1 - depth, 0
    {
      ghost var inner := PlanOf(limits, contents, body.value, body.size, depth + 1);
      BodyFirst(limits, opens, -1, body, inner, plan);
      if !opens { return true; }
      var spool;
      spool, failed := ExpandedSpool(-1, body);
      if failed || spool.None? { return; }
      var unclosed := Fails(faults);
      if unclosed {
        CloseCounted(spool.value);
        return true;
      }
      failed := Walk(spool.value, depth + 1, inner);
      CloseCounted(spool.value);
    }
  }

  lemma BodyFirst(limits: Limits, opens: bool, declared: int, body: Body, inner: Plan, plan: Plan)
    requires plan == Then(Plan([], body.size, 0, 0, opens && BodyFine(limits, declared, body)), inner)
    ensures plan.leaves == inner.leaves && plan.bytes == body.size + inner.bytes && plan.headers == inner.headers
    ensures plan.files == inner.files && (plan.fine ==> inner.fine && opens && BodyFine(limits, declared, body))
  {
    assert [] + inner.leaves == inner.leaves;
  }

  /** An archive within its limits is counted as long as there is room for its records. */
  lemma ArchiveFirst(plan: Plan, archive: Archive, count: nat, members: Plan, headers: nat)
    requires plan == Then(Plan([], 0, Records(archive), 0, ArchiveFine(archive, count)), members)
    ensures plan.leaves == members.leaves && plan.files == members.files && plan.bytes == members.bytes
    ensures plan.headers == Records(archive) + members.headers
    ensures plan.fine ==> members.fine && (archive.Zip? ==> count == Records(archive))
    ensures plan.fine && headers + plan.headers <= MAX_HEADERS ==>
              Acceptable(archive, Records(archive), MAX_HEADERS - headers)
  {
    assert [] + members.leaves == members.leaves;
  }

  /** The whole walk: a root that is no archive is left alone. Over the whole recursion the visited bytes stay within
      the expanded bytes and those within their limit, as do files, headers and errors, and every spool is closed.
      Coverage is never lost silently: without an error, every leaf down to the depth limit was visited, in order. And
      nothing is reported without a cause: where nothing fails, all contents are fine and the budgets suffice, every
      leaf is visited, and bytes and headers are charged exactly. */
  method WalkRoot(limits: Limits, contents: nat -> Content, root: Spool, faults: bool)
    returns (visits: seq<nat>, expanded: nat, headers: nat, errors: nat, failed: bool, terminal: bool)
    ensures Total(visits) <= expanded <= limits.maxExpandedBytes
    ensures |visits| <= limits.maxFiles && headers <= MAX_HEADERS && errors <= MAX_ERRORS
    ensures contents(root.value).Plain? ==> visits == [] && errors == 0 && !failed && !terminal
    ensures var plan := PlanOf(limits, contents, root.value, root.size, 0);
            !contents(root.value).Plain? ==>
              && (errors == 0 && !failed && !terminal ==> visits == plan.leaves)
              && (!faults && plan.fine && plan.bytes <= limits.maxExpandedBytes && plan.headers <= MAX_HEADERS
                  && plan.files <= limits.maxFiles ==>
                  visits == plan.leaves && errors == 0 && !failed && !terminal
                    && expanded == plan.bytes && headers == plan.headers)
  {
    if contents(root.value).Plain? { return [], 0, 0, 0, false, false; }
    var s := new WalkState(limits, contents, faults);
    failed := s.Walk(root, 0, PlanOf(limits, contents, root.value, root.size, 0));
    assert s.live == {};
    return s.visits, s.expanded, s.headers, s.errors, failed, s.terminal;
  }
}
