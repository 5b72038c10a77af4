/** The files of the example CA and the enrollment that reads, writes and renames them.

    A disk maps file names to contents; `rename` is atomic and may fail at any of its call
    sites.  `Enrolled` says what one enrollment under the server's mutex can make of a disk;
    the class `Authority` is the C code and is proved to meet it.  What holds over whole runs
    is proved from `Enrolled` alone. */
module CaStore {

  datatype File = Serial | SerialNew | SerialOld | Index | IndexNew | IndexOld | Attr | AttrNew | AttrOld

  /** A line of the index: valid or not, serial number, subject name. */
  datatype Row = Row(valid: bool, serial: nat, subject: string)

  datatype Content = Number(n: nat) | Rows(rows: seq<Row>) | Attributes(uniqueSubject: bool) | Junk(bytes: string)

  type Disk = map<File, Content>

  /** The call sites of `rename`: forward moves and the moves that undo them. */
  datatype Site =
    | SerialAway | SerialIn | SerialBack
    | IndexAway | IndexIn | IndexInBack
    | AttrAway | AttrAwayUndo | AttrAwayBack
    | AttrIn | AttrInAttrBack | AttrInUndo | AttrInBack

  datatype Errno = Ok | NotFound | Other

  /** `rename(from, to)`: atomic, and it reports a missing file as such. */
  function Rename(d: Disk, from: File, to: File, fails: bool): (r: (Errno, Disk)) {
    if fails then (Other, d)
    else if from !in d then (NotFound, d)
    else (Ok, (d - {from})[to := d[from]])
  }

  const ForwardIndex := {IndexAway, IndexIn, AttrAway, AttrIn}
  const Forward := {SerialAway, SerialIn} + ForwardIndex

  predicate Same(d: Disk, e: Disk, fs: set<File>) {
    forall f :: f in fs ==> (f in e <==> f in d) && (f in d ==> e[f] == d[f])
  }

  /** Only files of `fs` may have changed. */
  predicate Within(d: Disk, e: Disk, fs: set<File>) {
    forall f :: f !in fs ==> (f in e <==> f in d) && (f in d ==> e[f] == d[f])
  }

  const SerialFiles := {Serial, SerialNew, SerialOld}
  const IndexFiles := {Index, IndexNew, IndexOld}
  const AttrFiles := {Attr, AttrNew, AttrOld}

  // ---------------------------------------------------------------- one enrollment

  /** How writing a .new file ends: complete, or failed leaving the old file, any contents or none. */
  datatype Save = Saved | Failed(left: Leftover)
  datatype Leftover = Untouched | Removed | Damaged(c: Content)

  function WriteFile(d: Disk, f: File, c: Content, s: Save): (r: Disk) {
    match s
    case Saved => d[f := c]
    case Failed(Untouched) => d
    case Failed(Removed) => d - {f}
    case Failed(Damaged(x)) => d[f := x]
  }

  /** Everything about one enrollment that the files do not determine: the subject asked for,
      whether signature, policy and signing succeed, the configured default of
      `unique_subject`, and which writes, renames and the final export fail. */
  datatype Request = Request(subject: string, certifies: bool, defaultUnique: bool,
                             serialSave: Save, indexSave: Save, attrSave: Save,
                             failing: set<Site>, exports: bool)

  datatype Cert = Cert(serial: nat, subject: string)

  datatype Answer = Issued(cert: Cert) | Refused

  predicate ClashesSubject(rows: seq<Row>, subject: string) {
    exists i :: 0 <= i < |rows| && rows[i].valid && rows[i].subject == subject
  }

  predicate ClashesSerial(rows: seq<Row>, serial: nat) {
    exists i :: 0 <= i < |rows| && rows[i].serial == serial
  }

  /** `index_index`: serials are unique, and so are the subjects of valid rows if asked for. */
  predicate Indexable(rows: seq<Row>, unique: bool) {
    forall i, j :: 0 <= i < j < |rows| ==>
      && rows[i].serial != rows[j].serial
      && (unique && rows[i].valid && rows[j].valid ==> rows[i].subject != rows[j].subject)
  }

  /** `load_index` and `load_serial` find usable files. */
  predicate Loadable(d: Disk) {
    && Index in d && d[Index].Rows? && (Attr in d ==> d[Attr].Attributes?)
    && Serial in d && d[Serial].Number?
  }

  function Unique(d: Disk, def: bool): (u: bool)
    requires Loadable(d)
  {
    if Attr in d then d[Attr].uniqueSubject else def
  }

  /** The new row is accepted: index sound, no clash, signing succeeded. */
  predicate Accepts(d: Disk, q: Request) {
    && Loadable(d)
    && var rows, u := d[Index].rows, Unique(d, q.defaultUnique);
       && Indexable(rows, u) && q.certifies
       && !(u && ClashesSubject(rows, q.subject))
       && !ClashesSerial(rows, d[Serial].n)
  }

  predicate AllSaved(q: Request) {
    q.serialSave.Saved? && q.indexSave.Saved? && q.attrSave.Saved?
  }

  function NextSerial(d: Disk): (c: Content)
    requires Loadable(d)
  {
    Number(d[Serial].n + 1)
  }

  function NextRows(d: Disk, q: Request): (c: Content)
    requires Loadable(d)
  {
    Rows(d[Index].rows + [Row(true, d[Serial].n, q.subject)])
  }

  /** Both live files hold the result of the enrollment. */
  predicate Committed(d: Disk, q: Request, e: Disk) {
    && Accepts(d, q)
    && Serial in e && e[Serial] == NextSerial(d)
    && Index in e && e[Index] == NextRows(d, q)
  }

  /** The attribute file, too, is written anew. */
  predicate AttrKept(d: Disk, q: Request, e: Disk)
    requires Loadable(d)
  {
    Attr in e && e[Attr] == Attributes(Unique(d, q.defaultUnique))
  }

  /** How one enrollment can end. */
  predicate Enrolled(d: Disk, q: Request, a: Answer, e: Disk) {
    // a certificate is returned exactly if nothing fails on the way, and then it is committed
    && (a.Issued? <==> Accepts(d, q) && AllSaved(q) && q.failing !! Forward && q.exports)
    && (a.Issued? ==> Committed(d, q, e) && AttrKept(d, q, e) && a.cert == Cert(d[Serial].n, q.subject))
    // whatever fails, each live file is as before, as intended, or gone
    && (Serial in e ==> Serial in d && (e[Serial] == d[Serial] || (Accepts(d, q) && e[Serial] == NextSerial(d))))
    && (Index in e ==> Index in d && (e[Index] == d[Index] || Committed(d, q, e)))
    // before the first rename no live file changes
    && (!(Accepts(d, q) && AllSaved(q)) ==> Same(d, e, {Serial, Index, Attr}))
    // while the undoing renames work, a refused enrollment costs at most the serial number
    && (Accepts(d, q) && AllSaved(q) && q.failing <= Forward && q.failing != {} && Attr in d ==>
          Serial in e && Same(d, e, {Index, Attr}))
  }

  // ---------------------------------------------------------------- what every enrollment keeps

  predicate InIndex(d: Disk, c: Cert) {
    Index in d && d[Index].Rows? && Row(true, c.serial, c.subject) in d[Index].rows
  }

  /** The serial file, while it exists, is above every serial in the live index and every
      serial handed out; certificates handed out have different serials and are in the live
      index while it exists. */
  ghost predicate Inv(d: Disk, issued: seq<Cert>) {
    && (Serial in d ==>
          (&& d[Serial].Number?
           && (forall c :: c in issued ==> c.serial < d[Serial].n)
           && (Index in d && d[Index].Rows? ==> forall r :: r in d[Index].rows ==> r.serial < d[Serial].n)))
    && (Index in d ==> forall c :: c in issued ==> InIndex(d, c))
    && (forall i, j :: 0 <= i < j < |issued| ==> issued[i].serial != issued[j].serial)
  }

  function Record(issued: seq<Cert>, a: Answer): (r: seq<Cert>) {
    if a.Issued? then issued + [a.cert] else issued
  }

  lemma EnrollKeeps(d: Disk, q: Request, a: Answer, e: Disk, issued: seq<Cert>)
    requires Inv(d, issued) && Enrolled(d, q, a, e)
    ensures Inv(e, Record(issued, a))
    ensures Serial in e ==> Serial in d && d[Serial].n <= e[Serial].n
  {
    hide Accepts, Same;
    if Accepts(d, q) {
      AcceptsLoadable(d, q);
    }
  }

  lemma AcceptsLoadable(d: Disk, q: Request)
    requires Accepts(d, q)
    ensures Loadable(d)
  {
  }

  /** The duplicate-serial check in the signing code never fires while the files are intact. */
  lemma SerialNeverClashes(d: Disk, issued: seq<Cert>)
    requires Inv(d, issued) && Loadable(d)
    ensures !ClashesSerial(d[Index].rows, d[Serial].n)
  {
  }

  // ---------------------------------------------------------------- whole runs

  datatype Enrollment = Enrollment(q: Request, a: Answer, after: Disk)

  /** Enrollments one behind the other, as the mutex orders them. */
  ghost predicate IsRun(d: Disk, es: seq<Enrollment>)
    decreases |es|
  {
    es == [] || (Enrolled(d, es[0].q, es[0].a, es[0].after) && IsRun(es[0].after, es[1..]))
  }

  function After(d: Disk, es: seq<Enrollment>): (e: Disk) {
    if es == [] then d else es[|es| - 1].after
  }

  /** All certificates handed out up to the end of a run. */
  function Recorded(issued: seq<Cert>, es: seq<Enrollment>): (all: seq<Cert>)
    decreases |es|
  {
    if es == [] then issued else Recorded(Record(issued, es[0].a), es[1..])
  }

  /** Over every sequence of enrollments and every pattern of failures: the serial file, while
      it exists, never decreases; it stays above every serial in the live index; no two
      certificates handed out share a serial; and each of them is in the live index while
      that file exists. */
  lemma {:induction false} RunKeeps(d: Disk, issued: seq<Cert>, es: seq<Enrollment>)
    requires Inv(d, issued) && IsRun(d, es)
    ensures var e, all := After(d, es), Recorded(issued, es);
            Inv(e, all) && issued <= all && (Serial in e ==> Serial in d && d[Serial].n <= e[Serial].n)
    decreases |es|
  {
    hide Enrolled, Inv;
    SerialIsNumber(d, issued);
    if es != [] {
      var e, now := es[0].after, Record(issued, es[0].a);
      EnrollKeeps(d, es[0].q, es[0].a, e, issued);
      SerialIsNumber(e, now);
      RunKeeps(e, now, es[1..]);
      assert After(d, es) == After(e, es[1..]);
      SerialIsNumber(After(d, es), Recorded(issued, es));
    }
  }

  lemma SerialIsNumber(d: Disk, issued: seq<Cert>)
    requires Inv(d, issued)
    ensures Serial in d ==> d[Serial].Number?
  {
  }

  lemma {:induction false} RunSplits(d: Disk, es: seq<Enrollment>, i: nat)
    requires IsRun(d, es) && i <= |es|
    ensures IsRun(d, es[..i]) && IsRun(After(d, es[..i]), es[i..])
    decreases i
  {
    hide Enrolled;
    if i > 0 {
      var e := es[0].after;
      RunSplits(e, es[1..], i - 1);
      assert es[..i][1..] == es[1..][..i - 1] && es[1..][i - 1..] == es[i..];
      assert After(d, es[..i]) == After(e, es[1..][..i - 1]);
    } else {
      assert es[0..] == es;
    }
  }

  /** Between any two moments of a run the serial file has not gone down, and a serial file
      that has disappeared does not come back. */
  lemma {:induction false} SerialNeverDecreases(d: Disk, issued: seq<Cert>, es: seq<Enrollment>, i: nat, j: nat)
    requires Inv(d, issued) && IsRun(d, es) && i <= j <= |es|
    ensures var now, later := After(d, es[..i]), After(d, es[..j]);
            Serial in later ==> Serial in now && now[Serial].Number? && later[Serial].Number? && now[Serial].n <= later[Serial].n
  {
    hide IsRun, Inv, Recorded;
    RunSplits(d, es, j);
    RunSplits(d, es[..j], i);
    assert es[..j][..i] == es[..i];
    var now, all := After(d, es[..i]), Recorded(issued, es[..i]);
    RunKeeps(d, issued, es[..i]);
    RunKeeps(now, all, es[..j][i..]);
    assert After(d, es[..j]) == After(now, es[..j][i..]);
    SerialIsNumber(now, all);
    SerialIsNumber(After(d, es[..j]), Recorded(all, es[..j][i..]));
  }

  // ---------------------------------------------------------------- runs without failures

  predicate Clean(q: Request) {
    q.serialSave == Saved && q.indexSave == Saved && q.attrSave == Saved && q.failing == {} && q.exports
  }

  /** The certificates a run returned, in order. */
  function Certs(es: seq<Enrollment>): (cs: seq<Cert>) {
    if es == [] then [] else (if es[0].a.Issued? then [es[0].a.cert] else []) + Certs(es[1..])
  }

  function RowsOf(cs: seq<Cert>): (rows: seq<Row>) {
    seq(|cs|, i requires 0 <= i < |cs| => Row(true, cs[i].serial, cs[i].subject))
  }

  /** The three live files. */
  predicate Live(d: Disk, n: nat, rows: seq<Row>, unique: bool) {
    && Serial in d && d[Serial] == Number(n) && Index in d && d[Index] == Rows(rows)
    && Attr in d && d[Attr] == Attributes(unique)
  }

  /** One enrollment in which nothing fails: a request that can be signed is served if and only
      if the index is sound and, where subjects have to be unique, none of its valid rows has
      the subject. */
  lemma CleanEnrollment(d: Disk, q: Request, a: Answer, e: Disk, n: nat, rows: seq<Row>, unique: bool)
    requires Live(d, n, rows, unique) && Clean(q) && Enrolled(d, q, a, e)
    requires forall r :: r in rows ==> r.serial < n
    ensures a.Issued? <==>
            && q.certifies
            && (forall i, j :: 0 <= i < j < |rows| ==> rows[i].serial != rows[j].serial)
            && (unique ==> forall i, j :: 0 <= i < j < |rows| && rows[i].valid && rows[j].valid ==> rows[i].subject != rows[j].subject)
            && (unique ==> forall r :: r in rows && r.valid ==> r.subject != q.subject)
    ensures a.Issued? ==> a.cert == Cert(n, q.subject) && Live(e, n + 1, rows + [Row(true, n, q.subject)], unique)
    ensures !a.Issued? ==> Live(e, n, rows, unique)
  {
    assert !ClashesSerial(rows, n) by {
      assert forall i :: 0 <= i < |rows| ==> rows[i] in rows;
    }
    assert ClashesSubject(rows, q.subject) <==> !(forall r :: r in rows && r.valid ==> r.subject != q.subject) by {
      SubjectInRows(rows, q.subject);
    }
  }

  lemma SubjectInRows(rows: seq<Row>, subject: string)
    ensures ClashesSubject(rows, subject) <==> exists r :: r in rows && r.valid && r.subject == subject
  {
    if exists r :: r in rows && r.valid && r.subject == subject {
      var r :| r in rows && r.valid && r.subject == subject;
      var i :| 0 <= i < |rows| && rows[i] == r;
    }
  }

  /** Over every run in which nothing fails: the serial file counts up by one for each
      certificate returned, their serials are consecutive from its old value on, and the live
      index is the old one followed by exactly their rows. */
  lemma {:induction false} CleanRun(d: Disk, es: seq<Enrollment>, n: nat, rows: seq<Row>, unique: bool)
    requires Live(d, n, rows, unique) && IsRun(d, es) && (forall r :: r in rows ==> r.serial < n)
    requires forall i :: 0 <= i < |es| ==> Clean(es[i].q)
    ensures Live(After(d, es), n + |Certs(es)|, rows + RowsOf(Certs(es)), unique)
    ensures forall k :: 0 <= k < |Certs(es)| ==> Certs(es)[k].serial == n + k
    ensures forall i :: 0 <= i < |es| && es[i].a.Issued? ==> es[i].a.cert.subject == es[i].q.subject
    decreases |es|
  {
    hide Enrolled, Live, RowsOf, Clean;
    if es == [] {
      assert rows + RowsOf([]) == rows by { NoRows(); }
    } else {
      var x := es[0];
      CleanEnrollment(d, x.q, x.a, x.after, n, rows, unique);
      var m, now := if x.a.Issued? then n + 1 else n, if x.a.Issued? then rows + [Row(true, n, x.q.subject)] else rows;
      CleanRun(x.after, es[1..], m, now, unique);
      var cs := Certs(es[1..]);
      assert After(d, es) == After(x.after, es[1..]);
      if x.a.Issued? {
        MoreRows(x.a.cert, cs);
        assert now + RowsOf(cs) == rows + ([Row(true, n, x.q.subject)] + RowsOf(cs));
      } else {
        assert Certs(es) == [] + cs == cs;
      }
    }
  }

  lemma NoRows()
    ensures RowsOf([]) == []
  {
  }

  lemma MoreRows(c: Cert, cs: seq<Cert>)
    ensures RowsOf([c] + cs) == [Row(true, c.serial, c.subject)] + RowsOf(cs)
  {
  }

  /** With failures anywhere, an enrollment uses up at most one serial number. */
  lemma {:induction false} SerialsUsedUp(d: Disk, issued: seq<Cert>, es: seq<Enrollment>)
    requires Inv(d, issued) && IsRun(d, es)
    ensures var e := After(d, es);
            Serial in e ==> Serial in d && d[Serial].Number? && e[Serial].Number? && d[Serial].n <= e[Serial].n <= d[Serial].n + |es|
    decreases |es|
  {
    hide Inv, Enrolled;
    SerialIsNumber(d, issued);
    if es != [] {
      var x := es[0];
      EnrollKeeps(d, x.q, x.a, x.after, issued);
      OneSerial(d, x.q, x.a, x.after, issued);
      SerialIsNumber(x.after, Record(issued, x.a));
      SerialsUsedUp(x.after, Record(issued, x.a), es[1..]);
      assert After(d, es) == After(x.after, es[1..]);
    }
  }

  lemma OneSerial(d: Disk, q: Request, a: Answer, e: Disk, issued: seq<Cert>)
    requires Inv(d, issued) && Enrolled(d, q, a, e)
    ensures Serial in e && Serial in d ==> d[Serial].Number? && e[Serial].Number? && e[Serial].n <= d[Serial].n + 1
  {
    hide Accepts, Same;
    if Accepts(d, q) {
      AcceptsLoadable(d, q);
    }
  }

  /** Nothing is issued if anything fails on the way: signing, one of the three writes, one of the
      six forward renames, or the final conversion. */
  lemma AnyFailureRefuses(d: Disk, q: Request, a: Answer, e: Disk)
    requires Enrolled(d, q, a, e)
    requires || !q.certifies || q.serialSave != Saved || q.indexSave != Saved || q.attrSave != Saved || !q.exports
             || SerialAway in q.failing || SerialIn in q.failing || IndexAway in q.failing || IndexIn in q.failing
             || AttrAway in q.failing || AttrIn in q.failing
    ensures a == Refused
  {
  }

  /** A serial file that has been set back to a number in the index issues nothing. */
  lemma SerialTaken(d: Disk, q: Request, a: Answer, e: Disk, i: nat)
    requires Enrolled(d, q, a, e) && Index in d && d[Index].Rows? && Serial in d && d[Serial].Number?
    requires i < |d[Index].rows| && d[Index].rows[i].serial == d[Serial].n
    ensures a == Refused && forall f :: f in {Serial, Index, Attr} ==> (f in e <==> f in d) && (f in d ==> e[f] == d[f])
  {
  }

  /** A subject whose rows are all revoked can enroll again, even where subjects are unique. */
  lemma RevokedEnrollsAgain(d: Disk, q: Request, a: Answer, e: Disk, n: nat, serial: nat)
    requires Live(d, n, [Row(false, serial, q.subject)], true) && serial < n && Clean(q) && q.certifies && Enrolled(d, q, a, e)
    ensures a == Issued(Cert(n, q.subject))
  {
    hide Enrolled;
    CleanEnrollment(d, q, a, e, n, [Row(false, serial, q.subject)], true);
  }

  /** The attribute file decides about unique subjects; the default only where there is none. */
  lemma AttributeOverridesDefault(d: Disk, q: Request, a: Answer, e: Disk, n: nat, serial: nat, unique: bool)
    requires Clean(q) && q.certifies && Enrolled(d, q, a, e) && serial < n
    requires Serial in d && d[Serial] == Number(n) && Index in d && d[Index] == Rows([Row(true, serial, q.subject)])
    requires if Attr in d then d[Attr] == Attributes(unique) else q.defaultUnique == unique
    ensures a.Issued? <==> !unique
    ensures a.Issued? ==> Attr in e && e[Attr] == Attributes(unique)
  {
    var rows := [Row(true, serial, q.subject)];
    assert rows[0].valid && rows[0].subject == q.subject;
  }

  /** Without usable files nothing is issued and no live file changes. */
  lemma UnusableFiles(d: Disk, q: Request, a: Answer, e: Disk)
    requires Enrolled(d, q, a, e)
    requires || Serial !in d || !d[Serial].Number? || Index !in d || !d[Index].Rows? || (Attr in d && !d[Attr].Attributes?)
    ensures a == Refused && forall f :: f in {Serial, Index, Attr} ==> (f in e <==> f in d) && (f in d ==> e[f] == d[f])
  {
  }

  // ---------------------------------------------------------------- the C code

  class Authority {
    var disk: Disk
    ghost var issued: seq<Cert>

    constructor (disk: Disk)
      ensures this.disk == disk && issued == []
    {
      this.disk, issued := disk, [];
    }

    /** `rotate_serial`: whatever fails, the live serial file is the new one after success, the
        old one after failure, or gone, and gone only if the undoing rename failed too. */
    method RotateSerialFile(failing: set<Site>) returns (ok: bool)
      modifies this`disk
      ensures ok <==> SerialNew in old(disk) && SerialAway !in failing && SerialIn !in failing
      ensures ok ==> Serial in disk && disk[Serial] == old(disk)[SerialNew] && SerialNew !in disk
      ensures ok && Serial in old(disk) ==> SerialOld in disk && disk[SerialOld] == old(disk)[Serial]
      ensures !ok && Serial in old(disk) ==>
                && (Serial in disk ==> disk[Serial] == old(disk)[Serial])
                && (SerialBack !in failing ==> Same(old(disk), disk, {Serial, SerialNew}))
      ensures Within(old(disk), disk, SerialFiles)
    {
      var e := Move(Serial, SerialOld, SerialAway in failing);
      if e != Ok && e != NotFound {
        return false;
      }
      e := Move(SerialNew, Serial, SerialIn in failing);
      if e != Ok {
        e := Move(SerialOld, Serial, SerialBack in failing);
        return false;
      }
      return true;
    }

    /** One call of `rename`. */
    method Move(from: File, to: File, fails: bool) returns (e: Errno)
      modifies this`disk
      ensures (e, disk) == Rename(old(disk), from, to, fails)
    {
      var r := Rename(disk, from, to, fails);
      disk := r.1;
      return r.0;
    }

    /** The two renames that undo a new index. */
    method PutIndexBack(undoFails: bool, backFails: bool)
      modifies this`disk
      ensures Within(old(disk), disk, IndexFiles)
      ensures Index in old(disk) && IndexOld in old(disk) && Index in disk ==>
                disk[Index] == old(disk)[Index] || disk[Index] == old(disk)[IndexOld]
      ensures Index in old(disk) && IndexOld in old(disk) && !undoFails && !backFails ==>
                && Index in disk && disk[Index] == old(disk)[IndexOld]
                && IndexNew in disk && disk[IndexNew] == old(disk)[Index]
    {
      var e := Move(Index, IndexNew, undoFails);
      e := Move(IndexOld, Index, backFails);
    }

    /** `rotate_index`: whatever fails, the live index is the new one after success, and the old
        one, the new one or gone after failure.  With both live files there and every undoing
        rename working, a failed rotation puts everything back. */
    method RotateIndexFiles(failing: set<Site>) returns (ok: bool)
      modifies this`disk
      ensures ok <==> IndexNew in old(disk) && AttrNew in old(disk) && failing !! ForwardIndex
      ensures ok ==> && Index in disk && disk[Index] == old(disk)[IndexNew]
                     && Attr in disk && disk[Attr] == old(disk)[AttrNew]
                     && (Index in old(disk) ==> IndexOld in disk && disk[IndexOld] == old(disk)[Index])
                     && (Attr in old(disk) ==> AttrOld in disk && disk[AttrOld] == old(disk)[Attr])
                     && IndexNew !in disk && AttrNew !in disk
      ensures Index in old(disk) && IndexNew in old(disk) && Index in disk ==>
                disk[Index] == old(disk)[Index] || disk[Index] == old(disk)[IndexNew]
      ensures !ok && failing <= Forward && {Index, IndexNew, Attr, AttrNew} <= old(disk).Keys ==>
                Same(old(disk), disk, {Index, IndexNew, Attr, AttrNew})
      ensures Within(old(disk), disk, IndexFiles + AttrFiles)
    {
      var e := Move(Index, IndexOld, IndexAway in failing);
      if e != Ok && e != NotFound {
        return false;
      }
      e := Move(IndexNew, Index, IndexIn in failing);
      if e != Ok {
        e := Move(IndexOld, Index, IndexInBack in failing);
        return false;
      }
      ok := RotateAttrFile(failing);
    }

    /** The second half: the attribute file follows the index that is already in place. */
    method RotateAttrFile(failing: set<Site>) returns (ok: bool)
      modifies this`disk
      ensures ok <==> AttrNew in old(disk) && AttrAway !in failing && AttrIn !in failing
      ensures ok ==> && Attr in disk && disk[Attr] == old(disk)[AttrNew]
                     && (Attr in old(disk) ==> AttrOld in disk && disk[AttrOld] == old(disk)[Attr])
                     && Same(old(disk), disk, IndexFiles) && AttrNew !in disk
      ensures !ok && Index in old(disk) && IndexOld in old(disk) && Index in disk ==>
                disk[Index] == old(disk)[Index] || disk[Index] == old(disk)[IndexOld]
      ensures !ok && failing <= Forward && {Index, IndexOld, Attr, AttrNew} <= old(disk).Keys ==>
                && Index in disk && disk[Index] == old(disk)[IndexOld]
                && IndexNew in disk && disk[IndexNew] == old(disk)[Index]
                && Same(old(disk), disk, {Attr, AttrNew})
      ensures Within(old(disk), disk, IndexFiles + AttrFiles)
    {
      var e := Move(Attr, AttrOld, AttrAway in failing);
      if e != Ok && e != NotFound {
        PutIndexBack(AttrAwayUndo in failing, AttrAwayBack in failing);
        return false;
      }
      e := Move(AttrNew, Attr, AttrIn in failing);
      if e != Ok {
        PutBothBack(failing);
        return false;
      }
      return true;
    }

    method PutBothBack(failing: set<Site>)
      modifies this`disk
      ensures Index in old(disk) && IndexOld in old(disk) && Index in disk ==>
                disk[Index] == old(disk)[Index] || disk[Index] == old(disk)[IndexOld]
      ensures failing <= Forward && {Index, IndexOld, AttrOld} <= old(disk).Keys ==>
                && Index in disk && disk[Index] == old(disk)[IndexOld]
                && IndexNew in disk && disk[IndexNew] == old(disk)[Index]
                && Attr in disk && disk[Attr] == old(disk)[AttrOld]
      ensures Within(old(disk), disk, IndexFiles + {Attr, AttrOld})
    {
      var e := Move(AttrOld, Attr, AttrInAttrBack in failing);
      PutIndexBack(AttrInUndo in failing, AttrInBack in failing);
    }

    /** `save_serial` and `save_index`: the three .new files, and nothing else. */
    method SaveFiles(serial: nat, rows: seq<Row>, unique: bool, q: Request) returns (ok: bool)
      modifies this`disk
      ensures ok <==> AllSaved(q)
      ensures Within(old(disk), disk, {SerialNew, IndexNew, AttrNew})
      ensures ok ==> && SerialNew in disk && disk[SerialNew] == Number(serial)
                     && IndexNew in disk && disk[IndexNew] == Rows(rows)
                     && AttrNew in disk && disk[AttrNew] == Attributes(unique)
    {
      disk := WriteFile(disk, SerialNew, Number(serial), q.serialSave);
      if q.serialSave.Failed? { return false; }
      disk := WriteFile(disk, IndexNew, Rows(rows), q.indexSave);
      if q.indexSave.Failed? { return false; }
      disk := WriteFile(disk, AttrNew, Attributes(unique), q.attrSave);
      return q.attrSave.Saved?;
    }

    /** `ossl_simple_enroll` with the server's mutex held. */
    method SimpleEnroll(q: Request) returns (a: Answer)
      modifies this
      ensures Enrolled(old(disk), q, a, disk)
      ensures issued == Record(old(issued), a)
      ensures old(Inv(disk, issued)) ==> Inv(disk, issued)
    {
      a := Commit(q);
      issued := Record(issued, a);
      if old(Inv(disk, issued)) {
        EnrollKeeps(old(disk), q, a, disk, old(issued));
      }
    }

    /** The serial file first, then the index: the new index is live only beside the new serial. */
    method RotateBoth(failing: set<Site>) returns (ok: bool)
      requires {Serial, SerialNew, Index, IndexNew, AttrNew} <= disk.Keys
      modifies this`disk
      ensures ok <==> failing !! Forward
      ensures ok ==> Serial in disk && Index in disk && Attr in disk && disk[Attr] == old(disk)[AttrNew]
      ensures Serial in disk ==> disk[Serial] == old(disk)[Serial] || disk[Serial] == old(disk)[SerialNew]
      ensures Index in disk ==>
                || (!ok && disk[Index] == old(disk)[Index])
                || (disk[Index] == old(disk)[IndexNew] && Serial in disk && disk[Serial] == old(disk)[SerialNew])
      ensures !ok && failing <= Forward && Attr in old(disk) ==> Serial in disk && Same(old(disk), disk, {Index, Attr})
    {
      ok := RotateSerialFile(failing);
      if ok {
        ok := RotateIndexFiles(failing);
      }
    }

    /** Loading the files and signing: the new row fits into them. */
    method Certify(q: Request) returns (ok: bool)
      ensures ok <==> Accepts(disk, q)
    {
      if Index !in disk || !disk[Index].Rows? || (Attr in disk && !disk[Attr].Attributes?) {
        return false;
      }
      var rows := disk[Index].rows;
      var unique := if Attr in disk then disk[Attr].uniqueSubject else q.defaultUnique;
      if !Indexable(rows, unique) || Serial !in disk || !disk[Serial].Number? {
        return false;
      }
      return q.certifies && !(unique && ClashesSubject(rows, q.subject)) && !ClashesSerial(rows, disk[Serial].n);
    }

    method Commit(q: Request) returns (a: Answer)
      modifies this`disk
      ensures Enrolled(old(disk), q, a, disk)
    {
      hide Indexable, ClashesSubject, ClashesSerial, WriteFile;
      var ok := Certify(q);
      if !ok { return Refused; }
      var rows, serial := disk[Index].rows, disk[Serial].n;
      ok := SaveFiles(serial + 1, rows + [Row(true, serial, q.subject)], Unique(disk, q.defaultUnique), q);
      if !ok { return Refused; }
      ok := RotateBoth(q.failing);
      if !ok || !q.exports { return Refused; }
      return Issued(Cert(serial, q.subject));
    }
  }
}
