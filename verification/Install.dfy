/**
 * The CLI installer from setting its cleanup trap to its end: selecting the checksum, verifying, staging,
 * renaming and the trap itself, with a failure before or after its effect, a caught signal or a kill
 * possible at every command.
 */
module Install {
  import opened Wrappers

  type Bytes = seq<int>

  // ---- selecting the manifest entry ----

  /** A manifest line as awk splits it into fields. */
  type Line = seq<string>

  /** The second field names the asset, bare or with the binary marker. */
  predicate Matches(line: Line, asset: string) {
    |line| >= 2 && (line[1] == asset || line[1] == "*" + asset)
  }

  /** The name may follow an asterisk, and nothing else. */
  lemma MatchesExactly(line: Line, asset: string)
    ensures Matches(line, asset) <==>
      |line| >= 2 && (line[1] == asset || (line[1] != "" && line[1][0] == '*' && line[1][1..] == asset))
  {
    if |line| >= 2 && line[1] != "" && line[1][0] == '*' {
      assert line[1] == "*" + line[1][1..];
    }
  }

  /** `awk`: the first field of the one matching line, which must have exactly two fields. */
  method SelectChecksum(lines: seq<Line>, asset: string) returns (r: Option<string>)
    ensures r.Some? <==> exists i :: 0 <= i < |lines| && OnlyMatch(lines, asset, i) && |lines[i]| == 2
    ensures r.Some? ==>
      exists i :: 0 <= i < |lines| && OnlyMatch(lines, asset, i) && |lines[i]| == 2 && r.value == lines[i][0]
  {
    var matches, checksum := 0, "";
    ghost var at := 0;
    for k := 0 to |lines|
      invariant matches == 0 <==> forall i :: 0 <= i < k ==> !Matches(lines[i], asset)
      invariant matches == 1 ==> at < k && Matches(lines[at], asset) && |lines[at]| == 2 && checksum == lines[at][0]
      invariant matches == 1 ==> forall i :: 0 <= i < k && i != at ==> !Matches(lines[i], asset)
      invariant matches >= 2 ==> exists i, j :: 0 <= i < j < k && Matches(lines[i], asset) && Matches(lines[j], asset)
    {
      if Matches(lines[k], asset) {
        if |lines[k]| != 2 {
          // the END block runs, but awk keeps the failing status
          return None;
        }
        if matches == 1 {
          assert Matches(lines[at], asset) && Matches(lines[k], asset);
        }
        matches := matches + 1;
        checksum := lines[k][0];
        at := k;
      }
    }
    if matches != 1 {
      return None;
    }
    assert OnlyMatch(lines, asset, at);
    return Some(checksum);
  }

  ghost predicate OnlyMatch(lines: seq<Line>, asset: string, i: nat)
    requires i < |lines|
  {
    Matches(lines[i], asset) && forall j :: 0 <= j < |lines| && j != i ==> !Matches(lines[j], asset)
  }

  function LowerHex(c: char): char {
    if 'A' <= c <= 'Z' then 'a' + (c - 'A') else c
  }

  function Lower(s: string): string {
    seq(|s|, i requires 0 <= i < |s| => LowerHex(s[i]))
  }

  /** `^[0-9A-Fa-f]{64}$` */
  predicate IsSha256(s: string) {
    |s| == 64 && forall i :: 0 <= i < |s| ==> '0' <= s[i] <= '9' || 'A' <= s[i] <= 'F' || 'a' <= s[i] <= 'f'
  }

  const DIGITS: string := "0123456789abcdef"
  const UPPER_DIGITS: string := "0123456789ABCDEF"

  /** Lowering keeps each hexadecimal digit's value. */
  lemma LowerExactly(s: string, i: nat, d: nat)
    requires i < |s| && d < 16 && (s[i] == UPPER_DIGITS[d] || s[i] == DIGITS[d])
    ensures |Lower(s)| == |s| && Lower(s)[i] == DIGITS[d]
  {
  }

  lemma Sha256Exactly(s: string)
    ensures IsSha256(s) <==> |s| == 64 && forall c :: c in s ==> c in DIGITS || c in UPPER_DIGITS
  {
    forall c ensures c in DIGITS || c in UPPER_DIGITS <==> '0' <= c <= '9' || 'A' <= c <= 'F' || 'a' <= c <= 'f' {
      HexDigit(c);
    }
    if |s| == 64 && forall c :: c in s ==> c in DIGITS || c in UPPER_DIGITS {
      assert forall i :: 0 <= i < |s| ==> s[i] in s;
    }
  }

  lemma HexDigit(c: char)
    ensures c in DIGITS || c in UPPER_DIGITS <==> '0' <= c <= '9' || 'A' <= c <= 'F' || 'a' <= c <= 'f'
  {
    if '0' <= c <= '9' {
      assert DIGITS[c as int - '0' as int] == c;
    } else if 'a' <= c <= 'f' {
      assert DIGITS[c as int - 'a' as int + 10] == c;
    } else if 'A' <= c <= 'F' {
      assert UPPER_DIGITS[c as int - 'A' as int + 10] == c;
    }
  }

  // ---- the file system the installer touches ----

  datatype Node = Missing | Regular(content: Bytes) | Link | Special

  /** The destination, the staged file beside it, and the temporary directory with its two files. */
  datatype Files = Files(destination: Node, staged: Option<Bytes>,
                         workDir: bool, binary: Option<Bytes>, sums: Option<seq<Line>>)

  /** What the outside supplies: the downloads, what an interrupted download or copy leaves, and the digest function. */
  datatype Outside = Outside(asset: string, download: Option<Bytes>, sumsDownload: Option<seq<Line>>,
                             partial: Bytes, partialSums: seq<Line>, digest: Bytes -> string)

  /**
   * How a command ends: normally; with a failure before or after its effect; with the shell acting on a caught
   * signal after its effect; or with the shell killed after its effect.
   */
  datatype Fate = Completes | Fails | FailsLate | Signalled | Killed

  /** How each command ends. */
  type Fates = nat -> Fate

  const CURL_BINARY: nat := 0
  const CURL_SUMS: nat := 1
  const CHECKSUM: nat := 2
  const MKDIR: nat := 3
  const MKTEMP: nat := 4
  const CP: nat := 5
  const CHMOD: nat := 6
  const CHECK_DESTINATION: nat := 7
  const MV: nat := 8
  const PRINTF: nat := 9
  const END: nat := 10
  // the trap's commands, the second one removing two files
  const RM_STAGED: nat := 10
  const RM_BINARY: nat := 11
  const RM_SUMS: nat := 12
  const RMDIR: nat := 13

  datatype Ending = Installed | Exited | WasKilled

  /** Some bytes that the manifest's only matching entry vouches for. */
  ghost predicate Vouched(o: Outside, content: Bytes) {
    && o.sumsDownload.Some?
    && exists i :: 0 <= i < |o.sumsDownload.value| && VouchedBy(o, o.sumsDownload.value, i, content)
  }

  ghost predicate VouchedBy(o: Outside, lines: seq<Line>, i: nat, content: Bytes)
    requires i < |lines|
  {
    OnlyMatch(lines, o.asset, i) && |lines[i]| == 2 && IsSha256(lines[i][0]) && o.digest(content) == Lower(lines[i][0])
  }

  /** A manifest vouches for one digest only: whatever it lets the installer install hashes the same. */
  lemma VouchedDigestIsUnique(o: Outside, a: Bytes, b: Bytes)
    requires Vouched(o, a)
    ensures Vouched(o, b) <==> o.digest(b) == o.digest(a)
  {
    var lines := o.sumsDownload.value;
    var i :| 0 <= i < |lines| && VouchedBy(o, lines, i, a);
    if o.digest(b) == o.digest(a) {
      assert VouchedBy(o, lines, i, b);
    }
    forall j | 0 <= j < |lines| && VouchedBy(o, lines, j, b) ensures o.digest(b) == o.digest(a) {
      assert Matches(lines[i], o.asset) && Matches(lines[j], o.asset);
    }
  }

  /** The destination is untouched, or holds vouched, non-empty bytes. */
  ghost predicate Safe(o: Outside, before: Node, now: Files) {
    || now.destination == before
    || (now.destination.Regular? && now.destination.content != [] && Vouched(o, now.destination.content))
  }

  // ---- what becomes of a run, told by the fates of its commands ----

  /** `check_destination` */
  predicate Allowed(destination: Node) {
    destination.Missing? || destination.Regular?
  }

  /** The download is there, not empty, and vouched for. */
  ghost predicate GoodDownload(o: Outside) {
    o.download.Some? && o.download.value != [] && Vouched(o, o.download.value)
  }

  /** That is: exactly one line of the manifest names the asset, with its digest in front and nothing behind. */
  lemma GoodDownloadExactly(o: Outside)
    ensures GoodDownload(o) <==>
      && o.download.Some? && |o.download.value| > 0 && o.sumsDownload.Some?
      && exists i :: 0 <= i < |o.sumsDownload.value| && |o.sumsDownload.value[i]| == 2
                  && Matches(o.sumsDownload.value[i], o.asset)
                  && IsSha256(o.sumsDownload.value[i][0])
                  && o.digest(o.download.value) == Lower(o.sumsDownload.value[i][0])
                  && forall j :: 0 <= j < |o.sumsDownload.value| && Matches(o.sumsDownload.value[j], o.asset) ==> j == i
  {
    hide Matches, IsSha256, Lower;
    if GoodDownload(o) {
      var lines := o.sumsDownload.value;
      var i :| 0 <= i < |lines| && VouchedBy(o, lines, i, o.download.value);
      assert Matches(lines[i], o.asset) && forall j :: 0 <= j < |lines| && Matches(lines[j], o.asset) ==> j == i;
    }
    forall i | o.sumsDownload.Some? && o.download.Some? && 0 <= i < |o.sumsDownload.value|
        && |o.sumsDownload.value[i]| == 2 && Matches(o.sumsDownload.value[i], o.asset)
        && IsSha256(o.sumsDownload.value[i][0]) && o.digest(o.download.value) == Lower(o.sumsDownload.value[i][0])
        && forall j :: 0 <= j < |o.sumsDownload.value| && Matches(o.sumsDownload.value[j], o.asset) ==> j == i
      ensures Vouched(o, o.download.value)
    {
      assert VouchedBy(o, o.sumsDownload.value, i, o.download.value);
    }
  }

  /** Command `k` does its work and the script goes on. */
  ghost predicate Works(o: Outside, fate: Fates, before: Node, k: nat) {
    && fate(k).Completes?
    && (k == CURL_BINARY ==> o.download.Some?)
    && (k == CURL_SUMS ==> o.sumsDownload.Some?)
    && (k == CHECKSUM ==> GoodDownload(o))
    && (k == CHECK_DESTINATION ==> Allowed(before))
  }

  /** The first command from `k` on that does not work, or the end. */
  ghost function StopsAt(o: Outside, fate: Fates, before: Node, k: nat): (n: nat)
    requires k <= END
    ensures k <= n <= END
    ensures forall i :: k <= i < n ==> Works(o, fate, before, i)
    ensures n < END ==> !Works(o, fate, before, n)
    decreases END - k
  {
    if k < END && Works(o, fate, before, k) then StopsAt(o, fate, before, k + 1) else k
  }

  lemma StopIsUnique(o: Outside, fate: Fates, before: Node, n: nat)
    requires n <= END && (forall i :: 0 <= i < n ==> Works(o, fate, before, i))
    requires n < END ==> !Works(o, fate, before, n)
    ensures StopsAt(o, fate, before, 0) == n
  {
  }

  // A run that stops at command `n`: what it leaves to its trap.

  /** Has the rename replaced the destination? */
  predicate Replaced(fate: Fates, n: nat) {
    n > MV || (n == MV && !fate(MV).Fails?)
  }

  /** Does the staged file exist? */
  predicate StagedExists(fate: Fates, n: nat) {
    (n == MKTEMP && !fate(MKTEMP).Fails?) || MKTEMP < n < MV || (n == MV && fate(MV).Fails?)
  }

  /** Does the shell know its name? A `mktemp` that fails late has made it and not told. */
  predicate StagedKnown(fate: Fates, n: nat) {
    (n == MKTEMP && fate(MKTEMP).Signalled?) || MKTEMP < n <= MV
  }

  predicate DiedBeforeTrap(fate: Fates, n: nat) {
    n < END && fate(n).Killed?
  }

  predicate Interrupted(f: Fate) { f.Signalled? || f.Killed? }

  /** How the trap ends: its first command that does not complete ends it, but one `rm` tries both its files. */
  function TrapEnd(fate: Fates, stagedKnown: bool): Fate {
    if stagedKnown && !fate(RM_STAGED).Completes? then fate(RM_STAGED)
    else if Interrupted(fate(RM_BINARY)) then fate(RM_BINARY)
    else if Interrupted(fate(RM_SUMS)) then fate(RM_SUMS)
    else if !fate(RM_BINARY).Completes? then fate(RM_BINARY)
    else if !fate(RM_SUMS).Completes? then fate(RM_SUMS)
    else fate(RMDIR)
  }

  /** The trap gets through to removing the work directory. */
  predicate TrapRemovesAll(fate: Fates, stagedKnown: bool) {
    && (stagedKnown ==> fate(RM_STAGED).Completes?)
    && fate(RM_BINARY).Completes? && fate(RM_SUMS).Completes?
    && !fate(RMDIR).Fails?
  }

  /** A run leaves no temporary file: `mktemp` did not fail after creating its file, and the trap got through. */
  ghost predicate CleansUp(o: Outside, fate: Fates, before: Node) {
    var n := StopsAt(o, fate, before, 0);
    !(n == MKTEMP && fate(MKTEMP).FailsLate?) && TrapRemovesAll(fate, StagedKnown(fate, n))
  }

  /** If every command completes, a good download replaces a missing or regular destination and no other. */
  lemma DestinationDecides(o: Outside, before: Node)
    requires GoodDownload(o)
    ensures var fate: Fates := _ => Completes; var n := StopsAt(o, fate, before, 0);
      && (n == END <==> before.Missing? || before.Regular?)
      && (Replaced(fate, n) <==> before.Missing? || before.Regular?)
      && TrapEnd(fate, StagedKnown(fate, n)).Completes? && CleansUp(o, fate, before)
  {
    StopIsUnique(o, _ => Completes, before, if Allowed(before) then END else CHECK_DESTINATION);
  }

  /** No command fails in the trap and no second signal arrives there: that and an honest `mktemp` suffice. */
  lemma UndisturbedTrapCleansUp(o: Outside, fate: Fates, before: Node)
    requires forall k :: RM_STAGED <= k <= RMDIR ==> fate(k).Completes?
    ensures CleansUp(o, fate, before) <==> !(StopsAt(o, fate, before, 0) == MKTEMP && fate(MKTEMP).FailsLate?)
  {
    assert fate(RM_STAGED).Completes? && fate(RM_BINARY).Completes? && fate(RM_SUMS).Completes?
        && fate(RMDIR).Completes?;
  }

  /** All commands complete but `k`, which ends with `f`. */
  function Except(k: nat, f: Fate): Fates {
    (i: nat) => if i == k then f else Completes
  }

  /** `mktemp` creates its file and then fails: an exit with status 1 leaves the file. */
  lemma LateMktempLeavesFile(o: Outside, before: Node)
    requires GoodDownload(o)
    ensures var fate := Except(MKTEMP, FailsLate);
      !CleansUp(o, fate, before) && !DiedBeforeTrap(fate, StopsAt(o, fate, before, 0))
      && StagedExists(fate, StopsAt(o, fate, before, 0)) && TrapEnd(fate, false).Completes?
  {
    StopIsUnique(o, Except(MKTEMP, FailsLate), before, MKTEMP);
  }

  /** A signal during the copy, and a second one in the trap: the work directory stays. */
  lemma SecondSignalLeavesFiles(o: Outside, before: Node)
    requires GoodDownload(o)
    ensures var fate := (k: nat) => if k == CP || k == RM_STAGED then Signalled else Completes;
      !CleansUp(o, fate, before) && !DiedBeforeTrap(fate, StopsAt(o, fate, before, 0))
      && TrapEnd(fate, StagedKnown(fate, StopsAt(o, fate, before, 0))).Signalled?
  {
    StopIsUnique(o, (k: nat) => if k == CP || k == RM_STAGED then Signalled else Completes, before, CP);
  }

  /** An `rm` that fails in the trap of an installation that went through: the work directory stays. */
  lemma FailingRmLeavesFiles(o: Outside, before: Node)
    requires GoodDownload(o) && Allowed(before)
    ensures var fate := Except(RM_BINARY, Fails);
      !CleansUp(o, fate, before) && StopsAt(o, fate, before, 0) == END && TrapEnd(fate, false).Fails?
  {
    StopIsUnique(o, Except(RM_BINARY, Fails), before, END);
  }

  // ---- the script ----

  class Installer {
    var files: Files
    var stagedBinary: bool      // is the shell variable staged_binary set?
    ghost var history: seq<Files>   // the file system after each command

    constructor (destination: Node)
      ensures files == Files(destination, None, true, None, None) && !stagedBinary && history == [files]
    {
      files := Files(destination, None, true, None, None);
      stagedBinary := false;
      history := [Files(destination, None, true, None, None)];
    }

    /** A command has changed the file system to `now`. */
    method Record(now: Files)
      modifies this
      ensures files == now && history == old(history) + [now] && stagedBinary == old(stagedBinary)
    {
      files := now;
      history := history + [now];
    }

    /** The file system is safe now and was after every command so far. */
    ghost predicate Valid(o: Outside, before: Node)
      reads this
    {
      && history != [] && history[|history| - 1] == files
      && (forall i :: 0 <= i < |history| ==> Safe(o, before, history[i]))
    }

    /** No temporary file is left. */
    predicate Clean()
      reads this
    {
      files.staged.None? && !files.workDir && files.binary.None? && files.sums.None?
    }

    /** The EXIT trap. */
    method Cleanup(o: Outside, fate: Fates, ghost before: Node) returns (end: Fate)
      requires Valid(o, before) && files.workDir
      modifies this
      ensures Valid(o, before) && files.destination == old(files.destination)
      ensures end == TrapEnd(fate, old(stagedBinary))
      ensures files.staged == if old(stagedBinary) && !fate(RM_STAGED).Fails? then None else old(files.staged)
      ensures !files.workDir <==> TrapRemovesAll(fate, old(stagedBinary))
      ensures !files.workDir ==> files.binary.None? && files.sums.None?
      ensures var reached := old(stagedBinary) ==> fate(RM_STAGED).Completes?;
        var goesOn := reached && !fate(RM_BINARY).Signalled? && !fate(RM_BINARY).Killed?;
        && files.binary == (if reached && !fate(RM_BINARY).Fails? then None else old(files.binary))
        && files.sums == if goesOn && !fate(RM_SUMS).Fails? then None else old(files.sums)
    {
      if stagedBinary {
        if !fate(RM_STAGED).Fails? { Record(files.(staged := None)); }
        if !fate(RM_STAGED).Completes? { return fate(RM_STAGED); }
      }
      if !fate(RM_BINARY).Fails? { Record(files.(binary := None)); }
      if Interrupted(fate(RM_BINARY)) { return fate(RM_BINARY); }
      if !fate(RM_SUMS).Fails? { Record(files.(sums := None)); }
      if Interrupted(fate(RM_SUMS)) { return fate(RM_SUMS); }
      if !fate(RM_BINARY).Completes? { return fate(RM_BINARY); }
      if !fate(RM_SUMS).Completes? { return fate(RM_SUMS); }
      if !fate(RMDIR).Fails? { Record(files.(workDir := false)); }
      end := fate(RMDIR);
    }

    /**
     * The script from the trap on. Whatever the fates, the destination is safe after every command; how the
     * run ends, what the destination holds and what is left behind are told exactly by the fates.
     */
    method Install(o: Outside, fate: Fates) returns (ending: Ending)
      requires files.workDir && files.staged.None? && !stagedBinary && history == [files]
      requires files.binary.None? && files.sums.None?
      modifies this
      ensures forall i :: 0 <= i < |history| ==>
        || history[i].destination == old(files.destination)
        || (history[i].destination.Regular? && history[i].destination.content != []
            && Vouched(o, history[i].destination.content))
      ensures history != [] && history[|history| - 1] == files
      ensures var n := StopsAt(o, fate, old(files.destination), 0); var trap := TrapEnd(fate, StagedKnown(fate, n));
        && (ending.WasKilled? <==> DiedBeforeTrap(fate, n) || trap.Killed?)
        && (ending.Installed? <==> n == END && trap.Completes?)
        && (Replaced(fate, n) ==>
            o.download.Some? && (old(files.destination).Missing? || old(files.destination).Regular?))
        && files.destination == (if Replaced(fate, n) then Regular(o.download.value) else old(files.destination))
        && (!ending.WasKilled? ==>
              (files.staged.Some? <==>
                 StagedExists(fate, n) && (StagedKnown(fate, n) ==> fate(RM_STAGED).Fails?)))
      ensures !ending.WasKilled? ==> (Clean() <==> CleansUp(o, fate, old(files.destination)))
    {
      ghost var before := files.destination;
      var n := Work(o, fate, before);
      if n < END && fate(n).Killed? { return WasKilled; }
      var trap := Cleanup(o, fate, before);
      if trap.Killed? { return WasKilled; }
      ending := if n == END && trap.Completes? then Installed else Exited;
    }

    /** The script's own commands; `n` is the one that ended them. */
    method Work(o: Outside, fate: Fates, ghost before: Node) returns (n: nat)
      requires Valid(o, before) && files.destination == before && files.staged.None? && !stagedBinary && files.workDir
      requires files.binary.None? && files.sums.None?
      modifies this
      ensures Valid(o, before) && files.workDir && n == StopsAt(o, fate, before, 0)
      ensures stagedBinary == StagedKnown(fate, n) && files.staged.Some? == StagedExists(fate, n)
      ensures Replaced(fate, n) ==> o.download.Some?
      ensures files.destination == if Replaced(fate, n) then Regular(o.download.value) else before
    {
      n := Download(o, fate, before);
      if n == CHECKSUM && fate(CHECKSUM).Completes? {
        var verified := Verified(o, before);
        if verified {
          n := Stage(o, fate, before);
          if n == CHECK_DESTINATION {
            n := Replace(o, fate, before);
          }
        }
      }
      StopIsUnique(o, fate, before, n);
    }

    /** The two downloads; an interrupted one leaves part of its file. */
    method Download(o: Outside, fate: Fates, ghost before: Node) returns (n: nat)
      requires Valid(o, before) && files.destination == before && files.staged.None? && !stagedBinary && files.workDir
      modifies this
      ensures Valid(o, before) && files.destination == before && files.staged.None? && !stagedBinary && files.workDir
      ensures n <= CHECKSUM && (forall k :: 0 <= k < n ==> Works(o, fate, before, k))
      ensures n < CHECKSUM ==> !Works(o, fate, before, n)
      ensures n == CHECKSUM ==> files.binary == o.download && files.sums == o.sumsDownload
      ensures n == CHECKSUM ==> o.download.Some? && o.sumsDownload.Some?
    {
      if fate(CURL_BINARY).Completes? && o.download.Some? {
        Record(files.(binary := o.download));
      } else {
        if !fate(CURL_BINARY).Fails? { Record(files.(binary := Some(o.partial))); }
        return CURL_BINARY;
      }
      if fate(CURL_SUMS).Completes? && o.sumsDownload.Some? {
        Record(files.(sums := o.sumsDownload));
      } else {
        if !fate(CURL_SUMS).Fails? { Record(files.(sums := Some(o.partialSums))); }
        return CURL_SUMS;
      }
      n := CHECKSUM;
    }

    /** Non-empty, selected, well-formed and equal checksums: reads only. */
    method Verified(o: Outside, ghost before: Node) returns (ok: bool)
      requires Valid(o, before) && files.binary.Some? && files.sums.Some?
      requires files.binary == o.download && files.sums == o.sumsDownload
      ensures ok <==> GoodDownload(o)
    {
      if files.binary.value == [] {
        return false;
      }
      var expected := SelectChecksum(files.sums.value, o.asset);
      if expected.None? || !IsSha256(expected.value) {
        return false;
      }
      ok := o.digest(files.binary.value) == Lower(expected.value);
      ghost var lines := files.sums.value;
      ghost var i :|
        0 <= i < |lines| && OnlyMatch(lines, o.asset, i) && |lines[i]| == 2 && expected.value == lines[i][0];
      assert ok <==> VouchedBy(o, lines, i, files.binary.value);
    }

    /** mkdir, mktemp, cp and chmod; a copy that does not complete may leave part of the bytes. */
    method Stage(o: Outside, fate: Fates, ghost before: Node) returns (n: nat)
      requires Valid(o, before) && files.destination == before && files.staged.None? && !stagedBinary && files.workDir
      requires files.binary == o.download && files.binary.Some?
      modifies this
      ensures Valid(o, before) && files.destination == before && files.workDir
      ensures MKDIR <= n <= CHECK_DESTINATION && (forall k :: MKDIR <= k < n ==> Works(o, fate, before, k))
      ensures n < CHECK_DESTINATION ==> !Works(o, fate, before, n)
      ensures stagedBinary == StagedKnown(fate, n) && files.staged.Some? == StagedExists(fate, n)
      ensures n == CHECK_DESTINATION ==> files.staged == o.download
    {
      if !fate(MKDIR).Completes? { return MKDIR; }
      if fate(MKTEMP).Fails? { return MKTEMP; }
      Record(files.(staged := Some([])));
      if fate(MKTEMP).FailsLate? || fate(MKTEMP).Killed? { return MKTEMP; }
      stagedBinary := true;
      if fate(MKTEMP).Signalled? { return MKTEMP; }
      if !fate(CP).Completes? {
        if !fate(CP).Fails? { Record(files.(staged := Some(o.partial))); }
        return CP;
      }
      Record(files.(staged := files.binary));
      n := if fate(CHMOD).Completes? then CHECK_DESTINATION else CHMOD;
    }

    /** The second check_destination, mv, forgetting the staged name, and the report. */
    method Replace(o: Outside, fate: Fates, ghost before: Node) returns (n: nat)
      requires Valid(o, before) && files.destination == before && stagedBinary && files.workDir
      requires files.staged == o.download && GoodDownload(o)
      modifies this
      ensures Valid(o, before) && files.workDir
      ensures CHECK_DESTINATION <= n <= END && (forall k :: CHECK_DESTINATION <= k < n ==> Works(o, fate, before, k))
      ensures n < END ==> !Works(o, fate, before, n)
      ensures stagedBinary == StagedKnown(fate, n) && files.staged.Some? == StagedExists(fate, n)
      ensures files.destination == if Replaced(fate, n) then Regular(o.download.value) else before
    {
      if !Allowed(files.destination) || !fate(CHECK_DESTINATION).Completes? { return CHECK_DESTINATION; }
      if fate(MV).Fails? { return MV; }
      Record(files.(destination := Regular(files.staged.value), staged := None));
      if !fate(MV).Completes? { return MV; }
      stagedBinary := false;
      n := if fate(PRINTF).Completes? then END else PRINTF;
    }
  }
}
