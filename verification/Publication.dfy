/**
 * Durable publication of closure evidence: stage both files, link the JSON, link the
 * sidecar, read both back, sync the directory. Every I/O call can fail, and other
 * processes may create names in the directory between any two calls.
 *
 * The directory records every state it passes through. A crash of the process leaves
 * one of them; losing power leaves what of it had reached the disk.
 */
module Publication {
  import opened Text

  // Names bind to inodes, inodes to contents. `ours` are the inodes this run created,
  // `synced` those of them whose content reached the disk, `durable` the entries as of
  // the last directory sync of this run.
  datatype Snapshot = Snapshot(
    names: map<string, nat>, data: map<nat, string>, ours: set<nat>, synced: set<nat>, durable: map<string, nat>)

  // What one publication is about.
  datatype Plan = Plan(jsonName: string, sidecarName: string, json: string, sidecar: string)

  ghost predicate WellFormed(s: Snapshot) {
    && (forall n :: n in s.names ==> s.names[n] in s.data)
    && s.synced <= s.ours <= s.data.Keys
  }

  // The name is bound to a file this run made.
  predicate Ours(s: Snapshot, name: string) {
    name in s.names && s.names[name] in s.ours
  }

  predicate HasContent(s: Snapshot, name: string, content: string) {
    name in s.names && s.names[name] in s.data && s.data[s.names[name]] == content
  }

  predicate IsFinal(plan: Plan, name: string) { name == plan.jsonName || name == plan.sidecarName }

  // What must hold wherever a crash may strike: a published JSON is whole and synced,
  // and a published sidecar is whole and synced and has its JSON beside it, on the disk
  // too once it is there itself.
  ghost predicate Safe(plan: Plan, s: Snapshot) {
    && WellFormed(s)
    && (Ours(s, plan.jsonName) ==> HasContent(s, plan.jsonName, plan.json) && s.names[plan.jsonName] in s.synced)
    && (Ours(s, plan.sidecarName) ==>
          && HasContent(s, plan.sidecarName, plan.sidecar) && s.names[plan.sidecarName] in s.synced
          && Ours(s, plan.jsonName))
    && DurableFinals(plan, s)
  }

  ghost predicate DurableFinals(plan: Plan, s: Snapshot) {
    forall n :: IsFinal(plan, n) && n in s.durable ==> n in s.names && s.names[n] == s.durable[n]
  }

  // What must hold of every step: nobody else's entry is removed, rebound or rewritten,
  // a final name, once bound, stays bound, and what was synced is not written again.
  ghost predicate Step(plan: Plan, a: Snapshot, b: Snapshot) {
    && a.ours <= b.ours
    && (forall n :: n in a.names && (a.names[n] !in a.ours || IsFinal(plan, n)) ==>
          n in b.names && b.names[n] == a.names[n])
    && (forall i :: i in a.data && i !in a.ours ==> i in b.data && b.data[i] == a.data[i] && i !in b.ours)
    && (forall i :: i in a.synced && i in a.data ==> i in b.synced && i in b.data && b.data[i] == a.data[i])
  }

  ghost predicate Chain(plan: Plan, history: seq<Snapshot>) {
    && (forall k :: 0 <= k < |history| ==> Safe(plan, history[k]))
    && (forall k :: 0 <= k < |history| - 1 ==> StepAt(plan, history, k))
  }

  ghost predicate StepAt(plan: Plan, history: seq<Snapshot>, k: nat)
    requires k < |history| - 1
  {
    Step(plan, history[k], history[k + 1])
  }

  lemma ChainSnoc(plan: Plan, history: seq<Snapshot>, s: Snapshot)
    requires Chain(plan, history) && Safe(plan, s)
    requires history != [] ==> Step(plan, history[|history| - 1], s)
    ensures Chain(plan, history + [s])
  {
    var longer := history + [s];
    forall k | 0 <= k < |longer| - 1 ensures StepAt(plan, longer, k) {
      if k < |history| - 1 { assert StepAt(plan, history, k); }
    }
  }

  // Everything bound in `a` is bound as before in `b`, contents included, and only
  // others' files have appeared.
  ghost predicate Grows(a: Snapshot, b: Snapshot) {
    && a.ours == b.ours && a.synced <= b.synced
    && (forall n :: n in a.names ==> n in b.names && b.names[n] == a.names[n])
    && (forall i :: i in a.data ==> i in b.data && b.data[i] == a.data[i])
    && (forall n :: n in b.names && n !in a.names ==> b.names[n] !in a.data)
  }

  lemma GrowsKeeps(plan: Plan, a: Snapshot, b: Snapshot)
    requires Safe(plan, a) && WellFormed(b) && Grows(a, b)
    ensures forall n :: Ours(b, n) <==> Ours(a, n)
    ensures forall n, c :: HasContent(a, n, c) ==> HasContent(b, n, c)
    ensures Step(plan, a, b)
    ensures a.durable == b.durable ==> Safe(plan, b)
  {
  }

  // Staged names are ".tmp-closure-" and 32 hex digits, so they are never final names.
  const TEMP_PREFIX := ".tmp-closure-"

  predicate IsHex(c: char) { '0' <= c <= '9' || 'a' <= c <= 'f' }

  predicate IsTempName(name: string) {
    |name| == 45 && name[..13] == TEMP_PREFIX && forall i :: 13 <= i < 45 ==> IsHex(name[i])
  }

  predicate HasSuffix(s: string, suffix: string) {
    |s| >= |suffix| && s[|s| - |suffix|..] == suffix
  }

  lemma TempNamesApart(name: string, jsonName: string)
    requires IsTempName(name) && HasSuffix(jsonName, ".json")
    ensures name != jsonName && name != jsonName + ".sha256"
  {
    assert jsonName[|jsonName| - 1] == jsonName[|jsonName| - 5..][4] == 'n';
    var side := jsonName + ".sha256";
    assert side[|side| - 6] == ".sha256"[1] == 's';
    assert IsHex(name[44]) && IsHex(name[39]);
  }

  // What one call leaves alone: every binding but `name`, every content but that of
  // `inode`; and no name but `name` has become one of ours.
  ghost predicate KeptBut(a: Snapshot, b: Snapshot, name: string, inode: nat) {
    && a.ours <= b.ours
    && (forall n :: n in a.names && n != name ==> n in b.names && b.names[n] == a.names[n])
    && (forall i :: i in a.data && i != inode ==> i in b.data && b.data[i] == a.data[i])
    && (forall n :: Ours(b, n) && n != name ==> Ours(a, n))
  }

  lemma CreateKeeps(plan: Plan, a: Snapshot, b: Snapshot, name: string, inode: nat)
    requires Safe(plan, a) && name !in a.names && inode !in a.data
    requires name != plan.jsonName && name != plan.sidecarName
    requires b == a.(names := a.names[name := inode], data := a.data[inode := ""], ours := a.ours + {inode})
    ensures Safe(plan, b) && Step(plan, a, b) && KeptBut(a, b, name, inode) && Ours(b, name)
  {
  }

  // The file may get this name: it is whole and synced, and a sidecar has its JSON.
  ghost predicate Linkable(plan: Plan, s: Snapshot, oldname: string, newname: string) {
    && Ours(s, oldname)
    && (IsFinal(plan, newname) ==> s.names[oldname] in s.synced)
    && (newname == plan.jsonName ==> HasContent(s, oldname, plan.json))
    && (newname == plan.sidecarName ==>
          HasContent(s, oldname, plan.sidecar) && newname != plan.jsonName && Ours(s, plan.jsonName))
  }

  lemma LinkKeeps(plan: Plan, a: Snapshot, b: Snapshot, oldname: string, newname: string)
    requires Safe(plan, a) && Linkable(plan, a, oldname, newname) && newname !in a.names
    requires b == a.(names := a.names[newname := a.names[oldname]])
    ensures Safe(plan, b) && Step(plan, a, b) && KeptBut(a, b, newname, 0)
  {
  }

  lemma UnlinkKeeps(plan: Plan, a: Snapshot, b: Snapshot, name: string)
    requires Safe(plan, a) && Ours(a, name) && !IsFinal(plan, name) && b == a.(names := a.names - {name})
    ensures Safe(plan, b) && Step(plan, a, b) && KeptBut(a, b, name, 0)
  {
  }

  lemma WriteKeeps(plan: Plan, a: Snapshot, b: Snapshot, inode: nat, content: string)
    requires Safe(plan, a) && inode in a.ours && inode !in a.synced && b == a.(data := a.data[inode := content])
    requires forall n :: n in a.names && a.names[n] == inode ==> !IsFinal(plan, n)
    ensures Safe(plan, b) && Step(plan, a, b)
  {
  }

  lemma GrowsKeepsLinkable(plan: Plan, a: Snapshot, b: Snapshot, oldname: string, newname: string)
    requires Safe(plan, a) && WellFormed(b) && Grows(a, b) && Linkable(plan, a, oldname, newname)
    ensures Linkable(plan, b, oldname, newname) && b.names[oldname] == a.names[oldname]
    ensures SameNames(a, b) && SameData(a, b)
  {
    GrowsKeeps(plan, a, b);
  }

  lemma GrowsThenKept(a: Snapshot, b: Snapshot, c: Snapshot, name: string, inode: nat)
    requires WellFormed(a) && Grows(a, b) && KeptBut(b, c, name, inode)
    ensures KeptBut(a, c, name, inode)
  {
  }

  // The random source can fail too.
  method RandomTempName(ghost plan: Plan) returns (name: Option<string>)
    requires Final(plan)
    ensures name.Some? ==> name.value != plan.jsonName && name.value != plan.sidecarName
  {
    var candidate: string := *;
    if !IsTempName(candidate) {
      return None;
    }
    TempNamesApart(candidate, plan.jsonName);
    name := Some(candidate);
  }

  ghost predicate SameNames(a: Snapshot, b: Snapshot) {
    && a.ours == b.ours
    && (forall n :: n in a.names ==> n in b.names && b.names[n] == a.names[n])
    && (forall n :: Ours(b, n) ==> Ours(a, n))
  }

  ghost predicate SameData(a: Snapshot, b: Snapshot) {
    forall i :: i in a.data ==> i in b.data && b.data[i] == a.data[i]
  }

  // The stuck temps are still there.
  ghost predicate Stuck(plan: Plan, s: Snapshot, stuck: set<string>) {
    forall n :: n in stuck ==> Ours(s, n) && n != plan.jsonName && n != plan.sidecarName
  }

  // A call that failed for a reason of its own: an I/O error, or the random source for a
  // staged name. A name that is taken is no such failure.
  datatype Trouble = Unread(name: string) | Unstaged | Unlinked(name: string) | Unsynced

  // Somebody else has the name.
  predicate Taken(s: Snapshot, name: string) {
    name in s.names && s.names[name] !in s.ours
  }

  class Directory {
    var names: map<string, nat>
    var data: map<nat, string>
    ghost var ours: set<nat>
    ghost var history: seq<Snapshot>
    ghost var synced: set<nat>
    ghost var durable: map<string, nat>
    ghost var stuck: set<string>         // temps whose unlink failed
    ghost var troubles: set<Trouble>     // the other calls that failed

    ghost function Now(): Snapshot
      reads this
    {
      Snapshot(names, data, ours, synced, durable)
    }

    ghost predicate Valid(plan: Plan)
      reads this
    {
      && Safe(plan, Now())
      && history != [] && history[|history| - 1] == Now()
      && Chain(plan, history)
      && Stuck(plan, Now(), stuck)
    }

    // A publication starts: nothing in the directory is its own yet.
    ghost method Begin(plan: Plan)
      requires forall n :: n in names ==> names[n] in data
      modifies this`ours, this`history, this`synced, this`durable, this`stuck, this`troubles
      ensures Valid(plan) && ours == {} && history == [Now()] && synced == {} && durable == map[] && stuck == {}
      ensures troubles == {}
    {
      ours, synced, durable, stuck, troubles := {}, {}, map[], {}, {};
      history := [Now()];
    }

    ghost method Record(plan: Plan)
      requires history != [] && Chain(plan, history) && Stuck(plan, Now(), stuck)
      requires Safe(plan, Now()) && Step(plan, history[|history| - 1], Now())
      modifies this`history
      ensures Valid(plan) && history == old(history) + [Now()]
    {
      ChainSnoc(plan, history, Now());
      history := history + [Now()];
    }

    // Other processes create any number of new names, each for a new file.
    method Environment(ghost plan: Plan)
      requires Valid(plan)
      modifies this`names, this`data, this`history
      ensures Valid(plan) && Grows(old(Now()), Now()) && old(history) <= history
    {
      var rounds: nat := *;
      while rounds > 0
        invariant Valid(plan) && Grows(old(Now()), Now()) && old(history) <= history
      {
        rounds := rounds - 1;
        var name: string := *;
        var content: string := *;
        var inode: nat := *;
        if name !in names && inode !in data {
          ghost var before := Now();
          names, data := names[name := inode], data[inode := content];
          GrowsKeeps(plan, before, Now());
          Record(plan);
        }
      }
    }

    // O_CREATE|O_EXCL on a random name: fails, or binds a new name to a new empty file.
    method CreateTemp(ghost plan: Plan) returns (ok: bool, name: string, inode: nat)
      requires Valid(plan) && Final(plan)
      modifies this`names, this`data, this`ours, this`history, this`troubles
      ensures Valid(plan) && old(history) <= history
      ensures troubles == if ok then old(troubles) else old(troubles) + {Unstaged}
      ensures !ok ==> Grows(old(Now()), Now())
      ensures ok ==> KeptBut(old(Now()), Now(), name, inode)
      ensures ok ==> name != plan.jsonName && name != plan.sidecarName
      ensures ok ==> name !in old(names) && inode !in old(data)
      ensures ok ==> Ours(Now(), name) && names[name] == inode && inode !in synced
    {
      Environment(plan);
      ghost var before := Now();
      var random := RandomTempName(plan);
      inode := *;
      var fails: bool := *;
      if fails || random.None? || random.value in names || inode in data {
        troubles := troubles + {Unstaged};
        return false, "", 0;
      }
      name := random.value;
      BindNew(plan, name, inode);
      GrowsThenKept(old(Now()), before, Now(), name, inode);
      ok := true;
    }

    method BindNew(ghost plan: Plan, name: string, inode: nat)
      requires Valid(plan) && name !in names && inode !in data && !IsFinal(plan, name)
      modifies this`names, this`data, this`ours, this`history
      ensures Valid(plan) && old(history) <= history && KeptBut(old(Now()), Now(), name, inode)
      ensures Ours(Now(), name) && names[name] == inode && inode !in synced
    {
      ghost var before := Now();
      names, data, ours := names[name := inode], data[inode := ""], ours + {inode};
      CreateKeeps(plan, before, Now(), name, inode);
      Record(plan);
    }

    // A write can stop anywhere; the file is not yet linked to a final name.
    method WriteAll(ghost plan: Plan, inode: nat, content: string) returns (ok: bool)
      requires Valid(plan) && inode in ours && inode !in synced
      requires forall n :: n in names && names[n] == inode ==> n != plan.jsonName && n != plan.sidecarName
      modifies this`names, this`data, this`history, this`troubles
      ensures Valid(plan) && old(history) <= history
      ensures troubles == if ok then old(troubles) else old(troubles) + {Unstaged}
      ensures SameNames(old(Now()), Now())
      ensures forall i :: i in old(data) && i != inode ==> i in data && data[i] == old(data)[i]
      ensures inode in data && (ok ==> data[inode] == content)
    {
      Environment(plan);
      var upTo: int := *;
      var fails: bool := *;
      var cut := if fails && 0 <= upTo <= |content| then upTo else |content|;
      assert content[..|content|] == content;
      Overwrite(plan, inode, content[..cut]);
      ok := !fails;
      if fails {
        troubles := troubles + {Unstaged};
      }
    }

    method Overwrite(ghost plan: Plan, inode: nat, content: string)
      requires Valid(plan) && inode in ours && inode !in synced
      requires forall n :: n in names && names[n] == inode ==> !IsFinal(plan, n)
      modifies this`data, this`history
      ensures Valid(plan) && old(history) <= history && data == old(data)[inode := content]
    {
      ghost var before := Now();
      data := data[inode := content];
      WriteKeeps(plan, before, Now(), inode, content);
      Record(plan);
    }

    // fsync of a staged file, then its close; either can fail.
    method SyncAndClose(ghost plan: Plan, inode: nat) returns (ok: bool)
      requires Valid(plan) && inode in ours
      modifies this`names, this`data, this`history, this`synced, this`troubles
      ensures Valid(plan) && old(history) <= history && Grows(old(Now()), Now())
      ensures troubles == if ok then old(troubles) else old(troubles) + {Unstaged}
      ensures ok ==> inode in synced
    {
      Environment(plan);
      var syncFails: bool := *;
      var closeFails: bool := *;
      if syncFails || closeFails {
        troubles := troubles + {Unstaged};
      }
      if syncFails {
        return false;
      }
      ghost var before := Now();
      synced := synced + {inode};
      GrowsKeeps(plan, before, Now());
      Record(plan);
      ok := !closeFails;
    }

    // link(2): refuses to replace an existing entry.
    method Link(ghost plan: Plan, oldname: string, newname: string) returns (ok: bool)
      requires Valid(plan) && Linkable(plan, Now(), oldname, newname)
      modifies this`names, this`data, this`history, this`troubles
      ensures Valid(plan) && old(history) <= history
      ensures ok ==> troubles == old(troubles)
      ensures !ok ==> troubles == old(troubles) + {Unlinked(newname)} || (troubles == old(troubles) && newname in names)
      ensures !ok ==> SameNames(old(Now()), Now())
      ensures ok ==> newname !in old(names) && newname in names && names[newname] == old(names)[oldname]
      ensures ok ==> ours == old(ours) && KeptBut(old(Now()), Now(), newname, 0)
      ensures SameData(old(Now()), Now())
    {
      Environment(plan);
      ghost var before := Now();
      GrowsKeepsLinkable(plan, old(Now()), before, oldname, newname);
      var fails: bool := *;
      if fails {
        troubles := troubles + {Unlinked(newname)};
      }
      if fails || newname in names {
        return false;
      }
      Bind(plan, oldname, newname);
      GrowsThenKept(old(Now()), before, Now(), newname, 0);
      ok := true;
    }

    method Bind(ghost plan: Plan, oldname: string, newname: string)
      requires Valid(plan) && Linkable(plan, Now(), oldname, newname) && newname !in names
      modifies this`names, this`history
      ensures Valid(plan) && old(history) <= history && KeptBut(old(Now()), Now(), newname, 0)
      ensures newname in names && names[newname] == old(names)[oldname]
    {
      ghost var before := Now();
      names := names[newname := names[oldname]];
      LinkKeeps(plan, before, Now(), oldname, newname);
      Record(plan);
    }

    method Unlink(ghost plan: Plan, name: string) returns (ok: bool)
      requires Valid(plan) && Ours(Now(), name) && name != plan.jsonName && name != plan.sidecarName
      requires name !in stuck
      modifies this`names, this`data, this`history, this`stuck
      ensures Valid(plan) && old(history) <= history && ours == old(ours)
      ensures KeptBut(old(Now()), Now(), name, 0) && SameData(old(Now()), Now())
      ensures stuck == if ok then old(stuck) else old(stuck) + {name}
      ensures ok ==> name !in names
    {
      Environment(plan);
      ghost var before := Now();
      var fails: bool := *;
      if fails {
        stuck := stuck + {name};
        return false;
      }
      Unbind(plan, name);
      GrowsThenKept(old(Now()), before, Now(), name, 0);
      ok := true;
    }

    method Unbind(ghost plan: Plan, name: string)
      requires Valid(plan) && Ours(Now(), name) && !IsFinal(plan, name) && name !in stuck
      modifies this`names, this`history
      ensures Valid(plan) && old(history) <= history && KeptBut(old(Now()), Now(), name, 0) && name !in names
    {
      ghost var before := Now();
      names := names - {name};
      UnlinkKeeps(plan, before, Now(), name);
      Record(plan);
    }

    method ReadFile(ghost plan: Plan, name: string) returns (r: ReadResult)
      requires Valid(plan)
      modifies this`names, this`data, this`history, this`troubles
      ensures Valid(plan) && old(history) <= history && Grows(old(Now()), Now())
      ensures troubles == if r.IoError? then old(troubles) + {Unread(name)} else old(troubles)
      ensures r.Contents? ==> HasContent(Now(), name, r.content)
      ensures r.NotExist? ==> name !in names
    {
      Environment(plan);
      var fails: bool := *;
      if fails {
        troubles := troubles + {Unread(name)};
      }
      r := if fails then IoError else if name in names then Contents(data[names[name]]) else NotExist;
    }

    // Open the directory, sync it, close it.
    method SyncDirectory(ghost plan: Plan) returns (ok: bool)
      requires Valid(plan)
      modifies this`names, this`data, this`history, this`durable, this`troubles
      ensures Valid(plan) && old(history) <= history && Grows(old(Now()), Now())
      ensures troubles == if ok then old(troubles) else old(troubles) + {Unsynced}
      ensures ok ==> forall n :: n in old(names) ==> n in durable && durable[n] == old(names)[n]
    {
      Environment(plan);
      var openFails: bool := *;
      var syncFails: bool := *;
      var closeFails: bool := *;
      if openFails || syncFails || closeFails {
        troubles := troubles + {Unsynced};
      }
      if openFails {
        return false;
      }
      if !syncFails {
        durable := names;
        Record(plan);
      }
      ok := !syncFails && !closeFails;
    }
  }

  datatype ReadResult = Contents(content: string) | NotExist | IoError

  // The final names: the destination ends in .json, the sidecar adds .sha256.
  predicate Final(plan: Plan) {
    HasSuffix(plan.jsonName, ".json") && plan.sidecarName == plan.jsonName + ".sha256"
  }

  datatype Candidate = Candidate(bytes: Option<string>, digest: string)

  datatype State = NotPublished | JsonVisible | PairVisible | PairDurable | PairVisibleDurabilityUnconfirmed

  datatype Result = Result(state: State, canonicalJson: string, canonicalSidecar: string, failed: bool)

  // Both files bound, whole, and this run's.
  ghost predicate PairPublished(plan: Plan, s: Snapshot) {
    && Ours(s, plan.jsonName) && HasContent(s, plan.jsonName, plan.json)
    && Ours(s, plan.sidecarName) && HasContent(s, plan.sidecarName, plan.sidecar)
  }

  // What survives losing power right now.
  ghost predicate OnDisk(dir: Directory, name: string)
    reads dir
  {
    name in dir.names && name in dir.durable && dir.durable[name] == dir.names[name] && dir.names[name] in dir.synced
  }

  ghost predicate OnlyOurs(s: Snapshot, allowed: set<string>) {
    forall n :: Ours(s, n) ==> n in allowed
  }

  // At some point of the run the sidecar was linked and no directory sync had covered
  // the JSON.
  ghost predicate Exposed(plan: Plan, history: seq<Snapshot>) {
    exists k :: 0 <= k < |history| && ExposedAt(plan, history[k])
  }

  predicate ExposedAt(plan: Plan, s: Snapshot) {
    Ours(s, plan.sidecarName) && plan.jsonName !in s.durable
  }

  lemma ExposedStays(plan: Plan, before: seq<Snapshot>, after: seq<Snapshot>)
    requires Exposed(plan, before) && before <= after
    ensures Exposed(plan, after)
  {
    var k :| 0 <= k < |before| && ExposedAt(plan, before[k]);
    assert after[k] == before[k];
  }

  class EvidencePublication {
    const dir: Directory
    const jsonName: string
    const sidecarName: string
    const canonical: string
    const sha256Hex: string -> string
    var closed: bool

    constructor (dir: Directory, jsonName: string, canonical: string, sha256Hex: string -> string)
      requires HasSuffix(jsonName, ".json")
      ensures this.dir == dir && this.jsonName == jsonName && sidecarName == jsonName + ".sha256"
      ensures this.canonical == canonical && this.sha256Hex == sha256Hex && !closed
    {
      this.dir, this.jsonName, this.sidecarName := dir, jsonName, jsonName + ".sha256";
      this.canonical, this.sha256Hex, this.closed := canonical, sha256Hex, false;
    }

    method Close()
      modifies this
      ensures closed
    {
      closed := true;
    }

    // A closed publication, or a candidate without content or with another digest.
    ghost predicate Refused(candidate: Candidate)
      reads this
    {
      closed || candidate.bytes.None? || candidate.digest != sha256Hex(candidate.bytes.value)
    }

    ghost function PlanOf(candidate: Candidate): Plan {
      Plan(jsonName, sidecarName, if candidate.bytes.Some? then candidate.bytes.value else "", candidate.digest + "\n")
    }

    // Create, write, sync and close one staged file. What was created is reported even
    // when a later call fails, so that it can be cleaned up.
    method Stage(ghost plan: Plan, content: string) returns (ok: bool, staged: seq<string>)
      requires dir.Valid(plan) && Final(plan)
      modifies dir
      ensures dir.Valid(plan) && old(dir.history) <= dir.history
      ensures dir.stuck == old(dir.stuck) && dir.durable == old(dir.durable)
      ensures dir.troubles == if ok then old(dir.troubles) else old(dir.troubles) + {Unstaged}
      ensures old(dir.synced) <= dir.synced && old(dir.ours) <= dir.ours
      ensures |staged| <= 1 && (ok ==> |staged| == 1)
      ensures forall t :: t in staged ==>
                Ours(dir.Now(), t) && t !in old(dir.names) && t != plan.jsonName && t != plan.sidecarName
      ensures forall n :: n in old(dir.names) ==> n in dir.names && dir.names[n] == old(dir.names)[n]
      ensures SameData(old(dir.Now()), dir.Now())
      ensures forall n :: Ours(dir.Now(), n) ==> Ours(old(dir.Now()), n) || n in staged
      ensures ok ==> HasContent(dir.Now(), staged[0], content) && dir.names[staged[0]] in dir.synced
    {
      var created, name, inode := dir.CreateTemp(plan);
      if !created {
        return false, [];
      }
      staged := [name];
      ok := Fill(plan, inode, content);
    }

    // Write, sync and close the staged file.
    method Fill(ghost plan: Plan, inode: nat, content: string) returns (ok: bool)
      requires dir.Valid(plan) && inode in dir.ours && inode !in dir.synced
      requires forall n :: n in dir.names && dir.names[n] == inode ==> !IsFinal(plan, n)
      modifies dir
      ensures dir.Valid(plan) && old(dir.history) <= dir.history
      ensures dir.stuck == old(dir.stuck) && dir.durable == old(dir.durable) && old(dir.synced) <= dir.synced
      ensures dir.troubles == if ok then old(dir.troubles) else old(dir.troubles) + {Unstaged}
      ensures SameNames(old(dir.Now()), dir.Now())
      ensures forall i :: i in old(dir.data) && i != inode ==> i in dir.data && dir.data[i] == old(dir.data)[i]
      ensures ok ==> inode in dir.synced && inode in dir.data && dir.data[inode] == content
    {
      var written := dir.WriteAll(plan, inode, content);
      if !written {
        return false;
      }
      ghost var before := dir.Now();
      ok := dir.SyncAndClose(plan, inode);
      GrowsKeeps(plan, before, dir.Now());
    }

    // Best effort: a failed unlink leaves that temp behind.
    method Cleanup(ghost plan: Plan, staged: seq<string>)
      requires dir.Valid(plan)
      requires forall t :: t in staged ==> Ours(dir.Now(), t) && t != plan.jsonName && t != plan.sidecarName
      requires forall i, j :: 0 <= i < j < |staged| ==> staged[i] != staged[j]
      requires dir.stuck == {}
      modifies dir
      ensures dir.Valid(plan) && old(dir.history) <= dir.history
      ensures forall n :: Ours(dir.Now(), n) ==> Ours(old(dir.Now()), n)
      ensures forall t :: t in staged && Ours(dir.Now(), t) ==> t in dir.stuck
      ensures dir.troubles == old(dir.troubles)
      ensures forall n :: Taken(old(dir.Now()), n) ==> Taken(dir.Now(), n)
    {
      for i := 0 to |staged|
        invariant dir.Valid(plan) && old(dir.history) <= dir.history
        invariant forall j :: i <= j < |staged| ==> Ours(dir.Now(), staged[j])
        invariant forall n :: Ours(dir.Now(), n) ==> Ours(old(dir.Now()), n)
        invariant forall j :: 0 <= j < i && Ours(dir.Now(), staged[j]) ==> staged[j] in dir.stuck
        invariant forall n :: n in dir.stuck ==> n in staged[..i]
        invariant dir.troubles == old(dir.troubles)
        invariant forall n :: Taken(old(dir.Now()), n) ==> Taken(dir.Now(), n)
      {
        assert staged[i] in staged;
        var ok := dir.Unlink(plan, staged[i]);
      }
    }

    method ReadBack(ghost plan: Plan, json: string, sidecar: string) returns (same: bool)
      requires dir.Valid(plan) && plan == Plan(jsonName, sidecarName, json, sidecar)
      requires PairPublished(plan, dir.Now())
      modifies dir`names, dir`data, dir`history, dir`troubles
      ensures dir.Valid(plan) && old(dir.history) <= dir.history && Grows(old(dir.Now()), dir.Now())
      ensures same ==> dir.troubles == old(dir.troubles)
      ensures !same ==> dir.troubles == old(dir.troubles) + {Unread(jsonName)}
                        || dir.troubles == old(dir.troubles) + {Unread(sidecarName)}
      ensures same ==> HasContent(dir.Now(), jsonName, json) && HasContent(dir.Now(), sidecarName, sidecar)
    {
      var gotJson := dir.ReadFile(plan, jsonName);
      if gotJson != Contents(json) || sha256Hex(gotJson.content) != sha256Hex(json) {
        return false;
      }
      var gotSidecar := dir.ReadFile(plan, sidecarName);
      same := gotSidecar == Contents(sidecar);
    }

    // Read both files back, then sync the directory.
    method Confirm(ghost plan: Plan, json: string, sidecar: string) returns (r: Result)
      requires dir.Valid(plan) && plan.json == json && plan.sidecar == sidecar
      requires PairPublished(plan, dir.Now())
      requires dir.names[plan.jsonName] in dir.synced && dir.names[plan.sidecarName] in dir.synced
      requires plan.jsonName == jsonName && plan.sidecarName == sidecarName
      requires dir.troubles == {}
      modifies dir
      ensures dir.Valid(plan) && old(dir.history) <= dir.history && Grows(old(dir.Now()), dir.Now())
      ensures dir.stuck == old(dir.stuck)
      ensures r.state == PairVisible || r.state == PairDurable || r.state == PairVisibleDurabilityUnconfirmed
      ensures r.state == PairDurable <==> !r.failed
      ensures r.state == PairDurable ==> OnDisk(dir, plan.jsonName) && OnDisk(dir, plan.sidecarName)
      ensures r.canonicalJson == canonical && r.canonicalSidecar == canonical + ".sha256"
      ensures Accounts(plan, r, dir)
    {
      var same := ReadBack(plan, json, sidecar);
      if !same {
        return Result(PairVisible, canonical, canonical + ".sha256", true);
      }
      var synced := dir.SyncDirectory(plan);
      if !synced {
        return Result(PairVisibleDurabilityUnconfirmed, canonical, canonical + ".sha256", true);
      }
      r := Result(PairDurable, canonical, canonical + ".sha256", false);
    }

    // Link the JSON, then the sidecar.
    method LinkPair(ghost plan: Plan, json: string, sidecar: string, jsonTmp: string, sidecarTmp: string)
      returns (r: Result)
      requires dir.Valid(plan) && Final(plan) && plan == Plan(jsonName, sidecarName, json, sidecar)
      requires Ours(dir.Now(), jsonTmp) && HasContent(dir.Now(), jsonTmp, json)
      requires Ours(dir.Now(), sidecarTmp) && HasContent(dir.Now(), sidecarTmp, sidecar)
      requires dir.names[jsonTmp] in dir.synced && dir.names[sidecarTmp] in dir.synced
      requires jsonTmp != sidecarTmp && {jsonTmp, sidecarTmp} !! {jsonName, sidecarName}
      requires OnlyOurs(dir.Now(), {jsonTmp, sidecarTmp}) && dir.stuck == {}
      requires jsonName !in dir.durable
      requires dir.troubles == {}
      modifies dir
      ensures dir.Valid(plan) && old(dir.history) <= dir.history
      ensures Describes(plan, r, dir) && Accounts(plan, r, dir)
      ensures OnlyOurs(dir.Now(), {jsonName, sidecarName} + dir.stuck)
    {
      assert jsonName != sidecarName;
      var linked := dir.Link(plan, jsonTmp, jsonName);
      if !linked {
        r := GiveUp(plan, jsonTmp, sidecarTmp);
        return;
      }
      r := LinkRest(plan, json, sidecar, jsonTmp, sidecarTmp);
    }

    // The JSON could not be linked: remove both temps.
    method GiveUp(ghost plan: Plan, jsonTmp: string, sidecarTmp: string) returns (r: Result)
      requires dir.Valid(plan) && plan.jsonName == jsonName && plan.sidecarName == sidecarName
      requires Ours(dir.Now(), jsonTmp) && Ours(dir.Now(), sidecarTmp)
      requires jsonTmp != sidecarTmp && {jsonTmp, sidecarTmp} !! {jsonName, sidecarName}
      requires OnlyOurs(dir.Now(), {jsonTmp, sidecarTmp}) && dir.stuck == {}
      requires dir.troubles == {Unlinked(jsonName)} || (dir.troubles == {} && Taken(dir.Now(), jsonName))
      modifies dir
      ensures dir.Valid(plan) && old(dir.history) <= dir.history
      ensures Describes(plan, r, dir) && Accounts(plan, r, dir)
      ensures OnlyOurs(dir.Now(), {jsonName, sidecarName} + dir.stuck)
    {
      Cleanup(plan, [jsonTmp, sidecarTmp]);
      assert jsonTmp in [jsonTmp, sidecarTmp] && sidecarTmp in [jsonTmp, sidecarTmp];
      r := Result(NotPublished, "", "", true);
    }

    // The JSON is linked: drop its temp, go on with the sidecar.
    method LinkRest(ghost plan: Plan, json: string, sidecar: string, jsonTmp: string, sidecarTmp: string)
      returns (r: Result)
      requires dir.Valid(plan) && Final(plan) && plan == Plan(jsonName, sidecarName, json, sidecar)
      requires Ours(dir.Now(), jsonName) && !Ours(dir.Now(), sidecarName)
      requires Ours(dir.Now(), jsonTmp) && Ours(dir.Now(), sidecarTmp) && HasContent(dir.Now(), sidecarTmp, sidecar)
      requires dir.names[sidecarTmp] in dir.synced
      requires jsonTmp != sidecarTmp && {jsonTmp, sidecarTmp} !! {jsonName, sidecarName}
      requires OnlyOurs(dir.Now(), {jsonName, jsonTmp, sidecarTmp}) && dir.stuck == {}
      requires jsonName !in dir.durable
      requires dir.troubles == {}
      modifies dir
      ensures dir.Valid(plan) && old(dir.history) <= dir.history
      ensures Describes(plan, r, dir) && Accounts(plan, r, dir)
      ensures OnlyOurs(dir.Now(), {jsonName, sidecarName} + dir.stuck)
    {
      var gone := dir.Unlink(plan, jsonTmp);
      r := LinkSidecar(plan, json, sidecar, sidecarTmp);
    }

    method LinkSidecar(ghost plan: Plan, json: string, sidecar: string, sidecarTmp: string) returns (r: Result)
      requires dir.Valid(plan) && Final(plan) && plan == Plan(jsonName, sidecarName, json, sidecar)
      requires Ours(dir.Now(), jsonName) && !Ours(dir.Now(), sidecarName)
      requires Ours(dir.Now(), sidecarTmp) && HasContent(dir.Now(), sidecarTmp, sidecar)
      requires dir.names[jsonName] in dir.synced && dir.names[sidecarTmp] in dir.synced
      requires sidecarTmp != jsonName && sidecarTmp != sidecarName
      requires sidecarTmp !in dir.stuck && OnlyOurs(dir.Now(), {jsonName, sidecarTmp} + dir.stuck)
      requires jsonName !in dir.durable
      requires dir.troubles == {}
      modifies dir
      ensures dir.Valid(plan) && old(dir.history) <= dir.history
      ensures Describes(plan, r, dir) && Accounts(plan, r, dir)
      ensures OnlyOurs(dir.Now(), {jsonName, sidecarName} + dir.stuck)
    {
      assert jsonName != sidecarName;
      var paired := dir.Link(plan, sidecarTmp, sidecarName);
      if !paired {
        r := GiveUpSidecar(plan, sidecarTmp);
        return;
      }
      assert PairPublished(plan, dir.Now());
      assert ExposedAt(plan, dir.history[|dir.history| - 1]);
      r := DropTempAndConfirm(plan, json, sidecar, sidecarTmp);
    }

    // The sidecar could not be linked: the JSON stays without it.
    method GiveUpSidecar(ghost plan: Plan, sidecarTmp: string) returns (r: Result)
      requires dir.Valid(plan) && plan.jsonName == jsonName && plan.sidecarName == sidecarName
      requires Ours(dir.Now(), jsonName) && !Ours(dir.Now(), sidecarName)
      requires Ours(dir.Now(), sidecarTmp) && !IsFinal(plan, sidecarTmp) && sidecarTmp !in dir.stuck
      requires OnlyOurs(dir.Now(), {jsonName, sidecarTmp} + dir.stuck)
      requires dir.troubles == {Unlinked(sidecarName)} || (dir.troubles == {} && Taken(dir.Now(), sidecarName))
      modifies dir
      ensures dir.Valid(plan) && old(dir.history) <= dir.history
      ensures Describes(plan, r, dir) && Accounts(plan, r, dir)
      ensures OnlyOurs(dir.Now(), {jsonName, sidecarName} + dir.stuck)
    {
      var gone := dir.Unlink(plan, sidecarTmp);
      r := Result(JsonVisible, canonical, "", true);
    }

    method DropTempAndConfirm(ghost plan: Plan, json: string, sidecar: string, sidecarTmp: string) returns (r: Result)
      requires dir.Valid(plan) && plan == Plan(jsonName, sidecarName, json, sidecar)
      requires PairPublished(plan, dir.Now())
      requires Ours(dir.Now(), sidecarTmp) && sidecarTmp != jsonName && sidecarTmp != sidecarName
      requires dir.names[jsonName] in dir.synced && dir.names[sidecarName] in dir.synced
      requires sidecarTmp !in dir.stuck && OnlyOurs(dir.Now(), {jsonName, sidecarName, sidecarTmp} + dir.stuck)
      requires Exposed(plan, dir.history)
      requires dir.troubles == {}
      modifies dir
      ensures dir.Valid(plan) && old(dir.history) <= dir.history
      ensures PairPublished(plan, dir.Now())
      ensures Describes(plan, r, dir) && Accounts(plan, r, dir)
      ensures OnlyOurs(dir.Now(), {jsonName, sidecarName} + dir.stuck)
    {
      DropTemp(plan, sidecarTmp);
      ExposedStays(plan, old(dir.history), dir.history);
      r := ConfirmPair(plan, json, sidecar);
    }

    method DropTemp(ghost plan: Plan, sidecarTmp: string)
      requires dir.Valid(plan) && PairPublished(plan, dir.Now())
      requires Ours(dir.Now(), sidecarTmp) && !IsFinal(plan, sidecarTmp) && sidecarTmp !in dir.stuck
      requires OnlyOurs(dir.Now(), {plan.jsonName, plan.sidecarName, sidecarTmp} + dir.stuck)
      modifies dir
      ensures dir.Valid(plan) && old(dir.history) <= dir.history && PairPublished(plan, dir.Now())
      ensures OnlyOurs(dir.Now(), {plan.jsonName, plan.sidecarName} + dir.stuck)
      ensures dir.troubles == old(dir.troubles)
    {
      var gone := dir.Unlink(plan, sidecarTmp);
    }

    method ConfirmPair(ghost plan: Plan, json: string, sidecar: string) returns (r: Result)
      requires dir.Valid(plan) && plan == Plan(jsonName, sidecarName, json, sidecar)
      requires PairPublished(plan, dir.Now()) && Exposed(plan, dir.history)
      requires OnlyOurs(dir.Now(), {jsonName, sidecarName} + dir.stuck)
      requires dir.troubles == {}
      modifies dir
      ensures dir.Valid(plan) && old(dir.history) <= dir.history && PairPublished(plan, dir.Now())
      ensures Describes(plan, r, dir) && Accounts(plan, r, dir)
      ensures OnlyOurs(dir.Now(), {jsonName, sidecarName} + dir.stuck)
    {
      ghost var before := dir.Now();
      r := Confirm(plan, json, sidecar);
      GrowsKeeps(plan, before, dir.Now());
      ExposedStays(plan, old(dir.history), dir.history);
    }

    // The state is accounted for by what went wrong, and nothing else went wrong.
    ghost predicate Accounts(plan: Plan, r: Result, dir: Directory)
      reads dir
    {
      var json, sidecar := plan.jsonName, plan.sidecarName;
      match r.state
      case PairDurable => dir.troubles == {}
      case PairVisibleDurabilityUnconfirmed => dir.troubles == {Unsynced}
      case PairVisible => dir.troubles == {Unread(json)} || dir.troubles == {Unread(sidecar)}
      case JsonVisible => dir.troubles == {Unlinked(sidecar)} || (dir.troubles == {} && Taken(dir.Now(), sidecar))
      case NotPublished =>
        || dir.troubles == {Unread(json)} || dir.troubles == {Unread(sidecar)}
        || dir.troubles == {Unstaged} || dir.troubles == {Unlinked(json)}
        || (dir.troubles == {} && (Taken(dir.Now(), json) || Taken(dir.Now(), sidecar)))
    }

    // The returned state says exactly which final names this run bound, and that a
    // linked sidecar was exposed to losing power for a while.
    ghost predicate Describes(plan: Plan, r: Result, dir: Directory)
      reads dir
    {
      && (r.state == NotPublished <==> !Ours(dir.Now(), plan.jsonName))
      && (r.state == NotPublished || r.state == JsonVisible <==> !Ours(dir.Now(), plan.sidecarName))
      && (r.state != NotPublished && r.state != JsonVisible ==> Exposed(plan, dir.history))
      && (r.state == PairDurable <==> !r.failed)
      && (r.state == PairDurable ==> OnDisk(dir, plan.jsonName) && OnDisk(dir, plan.sidecarName))
      && r.canonicalJson == (if r.state == NotPublished then "" else canonical)
      && r.canonicalSidecar == (if r.state == NotPublished || r.state == JsonVisible then "" else canonical + ".sha256")
    }

    method Publish(candidate: Candidate) returns (r: Result)
      requires forall n :: n in dir.names ==> dir.names[n] in dir.data
      requires Final(PlanOf(candidate))
      modifies dir
      // Every state the directory went through, so every crash, is safe; and the first
      // of them is the directory as it was found.
      ensures dir.Valid(PlanOf(candidate))
      ensures dir.history[0] == Snapshot(old(dir.names), old(dir.data), {}, {}, map[])
      ensures Describes(PlanOf(candidate), r, dir)
      // Losing power at some point of the run could have left the sidecar without its
      // JSON exactly if the sidecar was linked, durable publication included.
      ensures CanBeOrphaned(PlanOf(candidate), dir.history) <==> r.state != NotPublished && r.state != JsonVisible
      ensures Refused(candidate) ==>
                r.state == NotPublished && dir.names == old(dir.names) && dir.data == old(dir.data)
      // Every outcome has its cause, and without one the publication is durable.
      ensures !Refused(candidate) ==> Accounts(PlanOf(candidate), r, dir)
      ensures r.state == PairDurable <==>
                !Refused(candidate) && dir.troubles == {} && !Taken(dir.Now(), jsonName) && !Taken(dir.Now(), sidecarName)
      // What it leaves behind besides the final names is exactly the temps whose unlink
      // failed, so the temps are gone if and only if every unlink succeeded.
      ensures OnlyOurs(dir.Now(), {jsonName, sidecarName} + dir.stuck)
      ensures dir.stuck == {} <==> OnlyOurs(dir.Now(), {jsonName, sidecarName})
    {
      ghost var plan := PlanOf(candidate);
      dir.Begin(plan);
      if closed || candidate.bytes.None? || candidate.digest != sha256Hex(candidate.bytes.value) {
        r := Result(NotPublished, "", "", true);
      } else {
        r := PublishVerified(plan, candidate.bytes.value, candidate.digest + "\n");
      }
      OrphanedIffLinked(plan, dir.history);
    }

    // The candidate is what it says it is: publish it unless a final name is taken.
    method PublishVerified(ghost plan: Plan, json: string, sidecar: string) returns (r: Result)
      requires dir.Valid(plan) && Final(plan) && plan == Plan(jsonName, sidecarName, json, sidecar)
      requires OnlyOurs(dir.Now(), {}) && dir.stuck == {} && dir.durable == map[]
      requires dir.troubles == {}
      modifies dir
      ensures dir.Valid(plan) && old(dir.history) <= dir.history
      ensures Describes(plan, r, dir) && Accounts(plan, r, dir)
      ensures OnlyOurs(dir.Now(), {jsonName, sidecarName} + dir.stuck)
    {
      var found := dir.ReadFile(plan, jsonName);
      if !found.NotExist? {
        return Result(NotPublished, "", "", true);
      }
      found := dir.ReadFile(plan, sidecarName);
      if !found.NotExist? {
        return Result(NotPublished, "", "", true);
      }
      r := StageAndLink(plan, json, sidecar);
    }

    method StageAndLink(ghost plan: Plan, json: string, sidecar: string) returns (r: Result)
      requires dir.Valid(plan) && Final(plan) && plan == Plan(jsonName, sidecarName, json, sidecar)
      requires OnlyOurs(dir.Now(), {}) && dir.stuck == {}
      requires jsonName !in dir.durable
      requires dir.troubles == {}
      modifies dir
      ensures dir.Valid(plan) && old(dir.history) <= dir.history
      ensures Describes(plan, r, dir) && Accounts(plan, r, dir)
      ensures OnlyOurs(dir.Now(), {jsonName, sidecarName} + dir.stuck)
    {
      var ok, staged := Stage(plan, json);
      if !ok {
        Cleanup(plan, staged);
        return Result(NotPublished, "", "", true);
      }
      var jsonTmp := staged[0];
      assert staged == [jsonTmp];
      ok, staged := Stage(plan, sidecar);
      assert Ours(dir.Now(), jsonTmp) && jsonTmp !in staged;
      if !ok {
        Cleanup(plan, [jsonTmp] + staged);
        return Result(NotPublished, "", "", true);
      }
      r := LinkPair(plan, json, sidecar, jsonTmp, staged[0]);
    }
  }

  // ---- What a chain of safe steps means for an observer after a crash ----

  // An entry somebody else made, at any time, is there unchanged in every later state.
  lemma {:induction false} ForeignEntriesSurvive(plan: Plan, history: seq<Snapshot>, j: nat, k: nat, name: string)
    requires Chain(plan, history) && j <= k < |history|
    requires name in history[j].names && !Ours(history[j], name)
    ensures name in history[k].names && history[k].names[name] == history[j].names[name]
    ensures !Ours(history[k], name)
    ensures HasContent(history[k], name, history[j].data[history[j].names[name]])
  {
    assert Safe(plan, history[j]);
    if j < k {
      ForeignEntriesSurvive(plan, history, j, k - 1, name);
      assert Safe(plan, history[k - 1]);
      assert StepAt(plan, history, k - 1);
    }
  }

  // A crash leaves the JSON name unbound, bound to somebody else's file, or bound to
  // the whole candidate; and this run's sidecar is never there without its JSON.
  lemma CrashIsSafe(plan: Plan, history: seq<Snapshot>, k: nat)
    requires Chain(plan, history) && k < |history|
    ensures plan.jsonName !in history[k].names || !Ours(history[k], plan.jsonName)
            || HasContent(history[k], plan.jsonName, plan.json)
    ensures Ours(history[k], plan.sidecarName) ==>
              HasContent(history[k], plan.sidecarName, plan.sidecar) && HasContent(history[k], plan.jsonName, plan.json)
  {
    assert Safe(plan, history[k]);
  }

  // What of the directory may be found after losing power at state k: entries that were
  // bound at some time, among them all of the last directory sync that are still bound.
  ghost predicate LeftOnDisk(history: seq<Snapshot>, k: nat, disk: map<string, nat>)
    requires k < |history|
  {
    && (forall n :: n in disk ==> exists j :: 0 <= j <= k && n in history[j].names && history[j].names[n] == disk[n])
    && (forall n :: n in history[k].durable && n in history[k].names && history[k].durable[n] == history[k].names[n] ==>
          n in disk && disk[n] == history[k].names[n])
  }

  lemma FinalOnDisk(plan: Plan, history: seq<Snapshot>, k: nat, disk: map<string, nat>, name: string)
    requires Chain(plan, history) && k < |history| && LeftOnDisk(history, k, disk)
    requires IsFinal(plan, name) && name in disk
    ensures name in history[k].names && history[k].names[name] == disk[name]
  {
    var j :| 0 <= j <= k && name in history[j].names && history[j].names[name] == disk[name];
    FinalNamesStay(plan, history, j, k, name);
  }

  // What was synced once is not written again.
  lemma {:induction false} SyncedStays(plan: Plan, history: seq<Snapshot>, j: nat, k: nat, inode: nat)
    requires Chain(plan, history) && j <= k < |history| && inode in history[j].synced
    ensures inode in history[j].data && inode in history[k].synced && inode in history[k].data
    ensures history[k].data[inode] == history[j].data[inode]
  {
    assert Safe(plan, history[j]);
    if j < k {
      SyncedStays(plan, history, j, k - 1, inode);
      assert Safe(plan, history[k - 1]);
      assert StepAt(plan, history, k - 1);
    }
  }

  // The file was synced, and has held this content ever since it was.
  ghost predicate SyncedAs(history: seq<Snapshot>, k: nat, inode: nat, content: string)
    requires k < |history|
  {
    && inode in history[k].synced
    && forall j :: 0 <= j <= k && inode in history[j].synced ==>
         inode in history[j].data && history[j].data[inode] == content
  }

  // Losing power at any point of the run: whichever entries made it to the disk, a final
  // name of this run found there stands for the whole file; and once the directory was
  // synced with a final name, that name is found.
  lemma PowerLossIsSafe(plan: Plan, history: seq<Snapshot>, k: nat, disk: map<string, nat>)
    requires Chain(plan, history) && k < |history| && LeftOnDisk(history, k, disk)
    ensures plan.jsonName in disk && disk[plan.jsonName] in history[k].ours ==>
              SyncedAs(history, k, disk[plan.jsonName], plan.json)
    ensures plan.sidecarName in disk && disk[plan.sidecarName] in history[k].ours ==>
              SyncedAs(history, k, disk[plan.sidecarName], plan.sidecar)
    ensures forall n :: IsFinal(plan, n) && n in history[k].durable ==> n in disk && disk[n] == history[k].durable[n]
  {
    var s := history[k];
    assert Safe(plan, s);
    if plan.jsonName in disk && disk[plan.jsonName] in s.ours {
      FinalOnDisk(plan, history, k, disk, plan.jsonName);
      WholeSince(plan, history, k, disk[plan.jsonName], plan.json);
    }
    if plan.sidecarName in disk && disk[plan.sidecarName] in s.ours {
      FinalOnDisk(plan, history, k, disk, plan.sidecarName);
      WholeSince(plan, history, k, disk[plan.sidecarName], plan.sidecar);
    }
  }

  lemma WholeSince(plan: Plan, history: seq<Snapshot>, k: nat, inode: nat, content: string)
    requires Chain(plan, history) && k < |history|
    requires inode in history[k].synced && inode in history[k].data && history[k].data[inode] == content
    ensures SyncedAs(history, k, inode, content)
  {
    forall j | 0 <= j <= k && inode in history[j].synced
      ensures inode in history[j].data && history[j].data[inode] == content
    {
      SyncedStays(plan, history, j, k, inode);
    }
  }

  // This run's sidecar is on the disk and its JSON is not.
  ghost predicate OrphanSidecar(plan: Plan, s: Snapshot, disk: map<string, nat>) {
    && plan.sidecarName in disk && disk[plan.sidecarName] in s.ours
    && !(plan.jsonName in disk && disk[plan.jsonName] in s.ours)
  }

  // Losing power at state k can leave that.
  ghost predicate OrphanedAt(plan: Plan, history: seq<Snapshot>, k: nat)
    requires k < |history|
  {
    exists disk :: LeftOnDisk(history, k, disk) && OrphanSidecar(plan, history[k], disk)
  }

  // Losing power can leave the sidecar without its JSON if and only if the sidecar is
  // linked and no directory sync has covered the JSON yet.
  lemma OrphanSidecarIff(plan: Plan, history: seq<Snapshot>, k: nat)
    requires Chain(plan, history) && k < |history| && Final(plan)
    ensures OrphanedAt(plan, history, k) <==> ExposedAt(plan, history[k])
  {
    var s := history[k];
    assert Safe(plan, s);
    forall disk | LeftOnDisk(history, k, disk) && OrphanSidecar(plan, s, disk)
      ensures Ours(s, plan.sidecarName) && plan.jsonName !in s.durable
    {
      FinalOnDisk(plan, history, k, disk, plan.sidecarName);
    }
    if Ours(s, plan.sidecarName) && plan.jsonName !in s.durable {
      assert |plan.sidecarName| == |plan.jsonName| + 7;
      var disk := map n | n in s.names && (n == plan.sidecarName || (n in s.durable && s.durable[n] == s.names[n])) :: s.names[n];
      assert LeftOnDisk(history, k, disk) && OrphanSidecar(plan, s, disk);
    }
  }

  // Losing power at some point of the run can leave the sidecar without its JSON.
  ghost predicate CanBeOrphaned(plan: Plan, history: seq<Snapshot>) {
    exists k: nat :: k < |history| && OrphanedAt(plan, history, k)
  }

  // A run that was exposed if it linked the sidecar, as every run of Publish is: the
  // sidecar can be orphaned if and only if the run linked it.
  lemma OrphanedIffLinked(plan: Plan, history: seq<Snapshot>)
    requires Chain(plan, history) && history != [] && Final(plan)
    requires Ours(history[|history| - 1], plan.sidecarName) ==> Exposed(plan, history)
    ensures CanBeOrphaned(plan, history) <==> Ours(history[|history| - 1], plan.sidecarName)
  {
    OrphanedIffExposed(plan, history);
    if Exposed(plan, history) {
      ExposedIsLinked(plan, history);
    }
  }

  lemma OrphanedIffExposed(plan: Plan, history: seq<Snapshot>)
    requires Chain(plan, history) && Final(plan)
    ensures CanBeOrphaned(plan, history) <==> Exposed(plan, history)
  {
    forall k: nat | k < |history| ensures OrphanedAt(plan, history, k) <==> ExposedAt(plan, history[k]) {
      OrphanSidecarIff(plan, history, k);
    }
  }

  lemma ExposedIsLinked(plan: Plan, history: seq<Snapshot>)
    requires Chain(plan, history) && Exposed(plan, history)
    ensures history != [] && Ours(history[|history| - 1], plan.sidecarName)
  {
    var k :| 0 <= k < |history| && ExposedAt(plan, history[k]);
    OursStays(plan, history, k, |history| - 1, plan.sidecarName);
  }

  lemma {:induction false} OursStays(plan: Plan, history: seq<Snapshot>, j: nat, k: nat, name: string)
    requires Chain(plan, history) && j <= k < |history| && IsFinal(plan, name) && Ours(history[j], name)
    ensures Ours(history[k], name)
  {
    if j < k {
      OursStays(plan, history, j, k - 1, name);
      assert StepAt(plan, history, k - 1);
    }
  }

  // Visibility never goes back: a final name once bound stays bound to the same file.
  lemma {:induction false} FinalNamesStay(plan: Plan, history: seq<Snapshot>, j: nat, k: nat, name: string)
    requires Chain(plan, history) && j <= k < |history|
    requires name == plan.jsonName || name == plan.sidecarName
    requires name in history[j].names
    ensures name in history[k].names && history[k].names[name] == history[j].names[name]
  {
    if j < k {
      FinalNamesStay(plan, history, j, k - 1, name);
      assert StepAt(plan, history, k - 1);
    }
  }
}
