/** The shift-handover board (components/ShiftHandover.tsx): the note filter
    and its newest-first ordering, the add-note form, the relative age shown
    on each note, and the unresolved count. */
module Handover {
  import opened Wrappers
  import opened Fleet
  import opened Text
  import opened Lists

  // ---------------------------------------------------------------------------
  // Filtering

  /** The priority drop-down: every priority, or one. */
  datatype PriorityFilter = AllPriorities | OnlyPriority(priority: NotePriority)

  /** A note counts as resolved only when the flag is set to true. */
  predicate Resolved(note: ShiftNote) {
    note.resolved == Some(true)
  }

  /** The filter callback: "Hide Resolved" drops resolved notes, and a chosen
      priority keeps only notes of exactly that priority. */
  predicate Shown(note: ShiftNote, hideResolved: bool, f: PriorityFilter) {
    && !(hideResolved && Resolved(note))
    && (f.OnlyPriority? ==> note.priority == f.priority)
  }

  // ---------------------------------------------------------------------------
  // Newest first

  /** Timestamps never increase along the list. */
  predicate NewestFirst(s: seq<ShiftNote>) {
    forall i, j :: 0 <= i < j < |s| ==> s[i].timestamp >= s[j].timestamp
  }

  /** The notes stamped at time `t`. */
  function AtTime(t: int): ShiftNote -> bool {
    (n: ShiftNote) => n.timestamp == t
  }

  /** Place `x` ahead of the first note no newer than it. */
  function InsertNewest(x: ShiftNote, s: seq<ShiftNote>): (r: seq<ShiftNote>)
    ensures |r| == |s| + 1
    ensures forall k :: 0 <= k < |r| ==> r[k] == x || r[k] in s
    ensures multiset(r) == multiset(s) + multiset{x}
    ensures NewestFirst(s) ==> NewestFirst(r)
    decreases |s|
  {
    if |s| == 0 || x.timestamp >= s[0].timestamp then [x] + s
    else
      var rest := InsertNewest(x, s[1..]);
      InsertBehind(x, s, rest);
      [s[0]] + rest
  }

  /** The tail of a newest-first list is newest first. */
  lemma NewestFirstTail(s: seq<ShiftNote>)
    requires |s| > 0 && NewestFirst(s)
    ensures NewestFirst(s[1..])
  {
    forall i, j | 0 <= i < j < |s[1..]| ensures s[1..][i].timestamp >= s[1..][j].timestamp {
      assert s[1..][i] == s[i + 1] && s[1..][j] == s[j + 1];
    }
  }

  /** The step of `InsertNewest` that keeps a newer head in front. */
  lemma InsertBehind(x: ShiftNote, s: seq<ShiftNote>, rest: seq<ShiftNote>)
    requires |s| > 0 && x.timestamp < s[0].timestamp
    requires forall k :: 0 <= k < |rest| ==> rest[k] == x || rest[k] in s[1..]
    requires multiset(rest) == multiset(s[1..]) + multiset{x}
    requires NewestFirst(s[1..]) ==> NewestFirst(rest)
    ensures forall k :: 0 <= k < |rest| + 1 ==> ([s[0]] + rest)[k] == x || ([s[0]] + rest)[k] in s
    ensures multiset([s[0]] + rest) == multiset(s) + multiset{x}
    ensures NewestFirst(s) ==> NewestFirst([s[0]] + rest)
  {
    assert s == [s[0]] + s[1..];
    InsertBehindMembers(x, s, rest);
    if NewestFirst(s) {
      NewestFirstTail(s);
      InsertBehindOrder(x, s, rest);
    }
  }

  lemma InsertBehindMembers(x: ShiftNote, s: seq<ShiftNote>, rest: seq<ShiftNote>)
    requires |s| > 0
    requires forall k :: 0 <= k < |rest| ==> rest[k] == x || rest[k] in s[1..]
    ensures forall k :: 0 <= k < |rest| + 1 ==> ([s[0]] + rest)[k] == x || ([s[0]] + rest)[k] in s
  {
    var r := [s[0]] + rest;
    forall k | 0 <= k < |r| ensures r[k] == x || r[k] in s {
      if k > 0 {
        assert r[k] == rest[k - 1];
        if rest[k - 1] != x {
          var m :| 0 <= m < |s[1..]| && s[1..][m] == rest[k - 1];
          assert s[m + 1] == rest[k - 1];
        }
      }
    }
  }

  lemma InsertBehindOrder(x: ShiftNote, s: seq<ShiftNote>, rest: seq<ShiftNote>)
    requires |s| > 0 && x.timestamp < s[0].timestamp
    requires forall k :: 0 <= k < |rest| ==> rest[k] == x || rest[k] in s[1..]
    requires NewestFirst(s) && NewestFirst(rest)
    ensures NewestFirst([s[0]] + rest)
  {
    var r := [s[0]] + rest;
    forall j | 0 <= j < |rest| ensures s[0].timestamp >= rest[j].timestamp {
      if rest[j] != x {
        var m :| 0 <= m < |s[1..]| && s[1..][m] == rest[j];
        assert s[m + 1] == rest[j];
      }
    }
    forall i, j | 0 <= i < j < |r| ensures r[i].timestamp >= r[j].timestamp {
      assert r[j] == rest[j - 1];
      if i > 0 {
        assert r[i] == rest[i - 1];
      }
    }
  }

  /** `sort((a, b) => b.timestamp - a.timestamp)` with the stable sort the
      language guarantees: newest first, ties in their original order. */
  function SortNewestFirst(s: seq<ShiftNote>): (r: seq<ShiftNote>)
    ensures |r| == |s|
    ensures multiset(r) == multiset(s)
    ensures NewestFirst(r)
    decreases |s|
  {
    if |s| == 0 then []
    else
      assert s == [s[0]] + s[1..];
      InsertNewest(s[0], SortNewestFirst(s[1..]))
  }

  /** Inserting into a newest-first list keeps the notes of any one time in
      order, with the inserted note ahead of them. */
  lemma InsertInFront(x: ShiftNote, s: seq<ShiftNote>, t: int)
    requires |s| == 0 || x.timestamp >= s[0].timestamp
    ensures Filter(InsertNewest(x, s), AtTime(t)) == (if x.timestamp == t then [x] else []) + Filter(s, AtTime(t))
  {
    assert InsertNewest(x, s) == [x] + s;
    FilterCons(x, s, AtTime(t));
  }

  lemma InsertBehindTies(x: ShiftNote, h: ShiftNote, tail: seq<ShiftNote>, rest: seq<ShiftNote>, t: int)
    requires x.timestamp < h.timestamp
    requires Filter(rest, AtTime(t)) == (if x.timestamp == t then [x] else []) + Filter(tail, AtTime(t))
    ensures Filter([h] + rest, AtTime(t)) == (if x.timestamp == t then [x] else []) + Filter([h] + tail, AtTime(t))
  {
    if x.timestamp == t {
      SkipNewerHead(h, rest, t);
      SkipNewerHead(h, tail, t);
    } else {
      SameTail(h, rest, tail, AtTime(t));
    }
  }

  /** A note newer than time `t` is not among the notes at `t`. */
  lemma SkipNewerHead(h: ShiftNote, s: seq<ShiftNote>, t: int)
    requires h.timestamp > t
    ensures Filter([h] + s, AtTime(t)) == Filter(s, AtTime(t))
  {
    FilterCons(h, s, AtTime(t));
  }

  /** Filtering keeps a common head in front of equal filtered tails. */
  lemma SameTail(h: ShiftNote, a: seq<ShiftNote>, b: seq<ShiftNote>, p: ShiftNote -> bool)
    requires Filter(a, p) == Filter(b, p)
    ensures Filter([h] + a, p) == Filter([h] + b, p)
  {
    FilterCons(h, a, p);
    FilterCons(h, b, p);
  }

  lemma {:induction false} InsertKeepsTies(x: ShiftNote, s: seq<ShiftNote>, t: int)
    requires NewestFirst(s)
    ensures Filter(InsertNewest(x, s), AtTime(t)) == (if x.timestamp == t then [x] else []) + Filter(s, AtTime(t))
    decreases |s|
  {
    if |s| == 0 || x.timestamp >= s[0].timestamp {
      InsertInFront(x, s, t);
    } else {
      NewestFirstTail(s);
      InsertKeepsTies(x, s[1..], t);
      InsertBehindTies(x, s[0], s[1..], InsertNewest(x, s[1..]), t);
      assert [s[0]] + s[1..] == s;
    }
  }

  /** The sort is stable: the notes of any one time come out in the order
      they went in. */
  lemma {:induction false} SortIsStable(s: seq<ShiftNote>, t: int)
    ensures Filter(SortNewestFirst(s), AtTime(t)) == Filter(s, AtTime(t))
    decreases |s|
  {
    if |s| > 0 {
      SortIsStable(s[1..], t);
      InsertKeepsTies(s[0], SortNewestFirst(s[1..]), t);
    }
  }

  /** `filteredNotes`: the shown notes, newest first. */
  function FilteredNotes(notes: seq<ShiftNote>, hideResolved: bool, f: PriorityFilter): (r: seq<ShiftNote>)
    ensures |r| <= |notes|
    ensures forall n :: n in r <==> n in notes && Shown(n, hideResolved, f)
    ensures NewestFirst(r)
  {
    var kept := Filter(notes, (n: ShiftNote) => Shown(n, hideResolved, f));
    var r := SortNewestFirst(kept);
    SameMembers(r, kept);
    r
  }

  /** The board lists the shown notes of any one time in the order the
      notes arrived. */
  lemma FilteredNotesStable(notes: seq<ShiftNote>, hideResolved: bool, f: PriorityFilter, t: int)
    ensures Filter(FilteredNotes(notes, hideResolved, f), AtTime(t))
      == Filter(Filter(notes, (n: ShiftNote) => Shown(n, hideResolved, f)), AtTime(t))
  {
    SortIsStable(Filter(notes, (n: ShiftNote) => Shown(n, hideResolved, f)), t);
  }

  /** With both filters off every note is listed, each as often as it occurs. */
  lemma NoFilterListsAll(notes: seq<ShiftNote>)
    ensures multiset(FilteredNotes(notes, false, AllPriorities)) == multiset(notes)
  {
    FilterAll(notes, (n: ShiftNote) => Shown(n, false, AllPriorities));
  }

  // ---------------------------------------------------------------------------
  // Unresolved count

  /** `notes.filter(n => !n.resolved).length`. */
  function UnresolvedCount(notes: seq<ShiftNote>): nat {
    |Filter(notes, (n: ShiftNote) => !Resolved(n))|
  }

  /** Hiding resolved notes with every priority shown lists exactly the
      unresolved notes, so the list and the count agree. */
  lemma UnresolvedMatchesHiddenList(notes: seq<ShiftNote>)
    ensures |FilteredNotes(notes, true, AllPriorities)| == UnresolvedCount(notes)
  {
    FilterLengthMatch(notes, (n: ShiftNote) => Shown(n, true, AllPriorities), notes, (n: ShiftNote) => !Resolved(n));
  }

  /** Resolved and unresolved notes together are all the notes. */
  lemma {:induction false} ResolvedSplit(notes: seq<ShiftNote>)
    ensures UnresolvedCount(notes) + |Filter(notes, Resolved)| == |notes|
    decreases |notes|
  {
    if |notes| > 0 {
      ResolvedSplit(notes[1..]);
    }
  }

  // ---------------------------------------------------------------------------
  // Adding a note

  /** The add-note form. The ids are free text; "" means none chosen. */
  datatype NoteForm = NoteForm(
    busId: string,
    berthId: string,
    author: string,
    role: NoteRole,
    message: string,
    priority: NotePriority)

  /** The form as it opens and as it resets. */
  const BlankForm: NoteForm := NoteForm("", "", "Current User", ManagerRole, "", Medium)

  /** A note as handed to `onAddNote`: everything but its id and timestamp. */
  datatype NoteDraft = NoteDraft(
    busId: Option<string>,
    berthId: Option<string>,
    author: string,
    role: NoteRole,
    message: string,
    priority: NotePriority,
    resolved: Option<bool>)

  /** `s || undefined` on a string. */
  function OrUndefined(s: string): (r: Option<string>)
    ensures r.None? <==> s == ""
    ensures r.GetOr("") == s
  {
    if s == "" then None else Some(s)
  }

  /** What one press of the add button leaves behind: the draft sent up, if
      any, and the form and dialog afterwards. */
  datatype AddOutcome = AddOutcome(sent: Option<NoteDraft>, form: NoteForm, dialogOpen: bool)

  /** `handleAddNote`: a message that is not all white space is sent with
      empty ids dropped and `resolved` false, then the form resets and the
      dialog closes; otherwise nothing happens. */
  function AddNote(form: NoteForm, dialogOpen: bool): (r: AddOutcome)
    ensures r.sent.Some? <==> exists i :: 0 <= i < |form.message| && !IsSpace(form.message[i])
    ensures r.sent.Some? ==>
      (var n := r.sent.value;
       && n.message == form.message && n.author == form.author && n.role == form.role
       && n.priority == form.priority && n.resolved == Some(false)
       && (n.busId.Some? <==> form.busId != "") && n.busId.GetOr("") == form.busId
       && (n.berthId.Some? <==> form.berthId != "") && n.berthId.GetOr("") == form.berthId
       && r.form == BlankForm && !r.dialogOpen)
    ensures r.sent.None? ==> r.form == form && r.dialogOpen == dialogOpen
  {
    TrimEmptyIff(form.message);
    if Trim(form.message) != "" then
      AddOutcome(
        Some(NoteDraft(OrUndefined(form.busId), OrUndefined(form.berthId), form.author, form.role,
          form.message, form.priority, Some(false))),
        BlankForm, false)
    else
      AddOutcome(None, form, dialogOpen)
  }

  /** The reset form holds no message, so pressing add again sends nothing
      until something is typed. */
  lemma AddResetsForNextNote(form: NoteForm, dialogOpen: bool)
    requires AddNote(form, dialogOpen).sent.Some?
    ensures var after := AddNote(form, dialogOpen);
      AddNote(after.form, after.dialogOpen) == AddOutcome(None, BlankForm, false)
  {
  }

  // ---------------------------------------------------------------------------
  // Relative time

  const MinuteMillis: int := 60000

  /** How old a note reads: whole minutes under an hour, whole hours under
      a day, and the calendar date beyond. */
  datatype Age = Minutes(minutes: int) | Hours(hours: int) | OnDate

  /** `formatTime`'s arithmetic: `Math.floor(diffMs / 60000)` and then
      `Math.floor(diffMins / 60)`. A note stamped after `now` reads as a
      negative number of minutes. */
  function NoteAge(timestamp: int, now: int): (a: Age)
    ensures a.Minutes? ==>
      a.minutes * MinuteMillis <= now - timestamp < (a.minutes + 1) * MinuteMillis && a.minutes < 60
    ensures a.Hours? ==>
      60 * a.hours * MinuteMillis <= now - timestamp < 60 * (a.hours + 1) * MinuteMillis && 1 <= a.hours < 24
    ensures a.OnDate? <==> now - timestamp >= 24 * 60 * MinuteMillis
    ensures a.Minutes? <==> now - timestamp < 60 * MinuteMillis
  {
    var diffMins := (now - timestamp) / MinuteMillis;
    var diffHours := diffMins / 60;
    if diffMins < 60 then Minutes(diffMins)
    else if diffHours < 24 then Hours(diffHours)
    else OnDate
  }

  /** The text shown; `date` is the locale's rendering of the timestamp. */
  function FormatAge(a: Age, date: string): (r: string)
    ensures a.OnDate? ==> r == date
    ensures a.Minutes? ==> |r| >= 6 && r[|r| - 5..] == "m ago"
    ensures a.Hours? ==> |r| >= 6 && r[|r| - 5..] == "h ago"
  {
    match a
    case Minutes(m) => IntToString(m) + "m ago"
    case Hours(h) => IntToString(h) + "h ago"
    case OnDate => date
  }

  /** The number in front of "m ago" or "h ago" reads back as the age. */
  lemma AgeReadsBack(a: Age, date: string)
    requires !a.OnDate?
    ensures var r := FormatAge(a, date);
      ParseInt(r[..|r| - 5]) == Some(if a.Minutes? then a.minutes else a.hours)
  {
    var n := if a.Minutes? then a.minutes else a.hours;
    var r := FormatAge(a, date);
    assert r[..|r| - 5] == IntToString(n);
    ParseIntRoundTrip(n);
  }

  /** A note from the last hour shows its age in minutes, and the number
      shown reads back as those minutes. */
  lemma RecentNoteReadsMinutes(timestamp: int, now: int, date: string)
    requires 0 <= now - timestamp < 60 * MinuteMillis
    ensures var a := NoteAge(timestamp, now);
      && a.Minutes? && 0 <= a.minutes
      && FormatAge(a, date) == NatToString(a.minutes) + "m ago"
      && ParseInt(NatToString(a.minutes)) == Some((now - timestamp) / MinuteMillis)
  {
    var a := NoteAge(timestamp, now);
    ParseIntRoundTrip(a.minutes);
  }
}
