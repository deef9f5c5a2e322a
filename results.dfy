/** The result history: the records of completed quizzes, kept in a file
    that is read whole, extended by one record and written back whole. */
module Results {
  import opened Wrappers
  import opened Text
  import opened Identity

  /** The label recorded for a quiz taken without logging in. */
  const Guest: string := "Invité"

  /** One completed quiz. The source also stores the rounded percentage
      and a timestamp; neither is part of this model. */
  datatype ResultRecord = ResultRecord(user: string, chapters: seq<string>, score: nat, answered: nat)

  /** A Python truthiness test on the session's user: None and the empty
      string are both "nobody logged in". */
  predicate LoggedIn(user: Option<string>) {
    user.Some? && user.value != ""
  }

  /** `st.session_state['user'] or "Invité"`: the name a record is filed under. */
  function UserLabel(user: Option<string>): string {
    if LoggedIn(user) then user.value else Guest
  }

  /** Reading the history: a missing file reads as the empty history. */
  function Load(file: Option<seq<ResultRecord>>): seq<ResultRecord> {
    match file
    case None => []
    case Some(h) => h
  }

  /** The results file. `file` is None while no file exists. */
  class ResultsStore {
    var file: Option<seq<ResultRecord>>

    constructor (initial: Option<seq<ResultRecord>>)
      ensures file == initial
    {
      file := initial;
    }

    function History(): seq<ResultRecord>
      reads this
    {
      Load(file)
    }

    /** Load, append one record, save the whole list. */
    method Append(rec: ResultRecord)
      modifies this
      ensures file == Some(old(History()) + [rec])
      ensures old(file).None? ==> History() == [rec]
      ensures |History()| == |old(History())| + 1
      ensures History()[|History()| - 1] == rec
      ensures forall i :: 0 <= i < |old(History())| ==> History()[i] == old(History())[i]
    {
      var history := Load(file);
      history := history + [rec];
      file := Some(history);
    }
  }

  /** The records of one user, in their original order. */
  function RecordsOf(history: seq<ResultRecord>, user: string): (r: seq<ResultRecord>)
    ensures |r| <= |history|
    ensures forall x :: x in r ==> x in history && x.user == user
  {
    if history == [] then []
    else (if history[0].user == user then [history[0]] else []) + RecordsOf(history[1..], user)
  }

  /** The results page's view: only the logged-in user's records, or every
      record when nobody is logged in. */
  function Visible(history: seq<ResultRecord>, user: Option<string>): (r: seq<ResultRecord>)
    ensures |r| <= |history|
    ensures LoggedIn(user) ==> forall x :: x in r ==> x in history && x.user == user.value
    ensures !LoggedIn(user) ==> r == history
  {
    if LoggedIn(user) then RecordsOf(history, user.value) else history
  }

  /** A record is kept exactly when it is in the history and filed under the user. */
  lemma {:induction false} RecordsOfMembers(history: seq<ResultRecord>, user: string, x: ResultRecord)
    ensures x in RecordsOf(history, user) <==> x in history && x.user == user
  {
    if history != [] {
      RecordsOfMembers(history[1..], user, x);
      assert history == [history[0]] + history[1..];
    }
  }

  /** Filtering commutes with concatenation, so the kept records keep
      their relative order. */
  lemma {:induction false} RecordsOfConcat(a: seq<ResultRecord>, b: seq<ResultRecord>, user: string)
    ensures RecordsOf(a + b, user) == RecordsOf(a, user) + RecordsOf(b, user)
  {
    if a != [] {
      assert (a + b)[1..] == a[1..] + b;
      RecordsOfConcat(a[1..], b, user);
    } else {
      assert a + b == b;
    }
  }

  /** Filtering an already filtered history changes nothing. */
  lemma {:induction false} RecordsOfIdempotent(history: seq<ResultRecord>, user: string)
    ensures RecordsOf(RecordsOf(history, user), user) == RecordsOf(history, user)
  {
    if history != [] {
      var head := if history[0].user == user then [history[0]] else [];
      RecordsOfConcat(head, RecordsOf(history[1..], user), user);
      RecordsOfIdempotent(history[1..], user);
      assert RecordsOf(head, user) == head;
    }
  }

  /** Appending one record to the history adds it to a view exactly when
      the view shows everyone's records or the record is the viewer's. */
  lemma VisibleAfterAppend(history: seq<ResultRecord>, rec: ResultRecord, user: Option<string>)
    ensures Visible(history + [rec], user) ==
              Visible(history, user) + (if !LoggedIn(user) || rec.user == user.value then [rec] else [])
  {
    if LoggedIn(user) {
      RecordsOfConcat(history, [rec], user.value);
      assert RecordsOf([rec], user.value) == (if rec.user == user.value then [rec] else []) by {
        assert [rec][1..] == [];
      }
    }
  }

  /** A Gmail user's view never shows a guest's record. */
  lemma {:induction false} VisibleExcludesGuests(history: seq<ResultRecord>, user: string)
    requires EndsWith(user, Domain)
    ensures forall x :: x in Visible(history, Some(user)) ==> x.user != Guest
  {
    assert |Guest| < |Domain| <= |user|;
  }

  /** A record filed under the session's label is always in that session's
      view once appended: the label and the filter agree. */
  lemma OwnRecordVisible(history: seq<ResultRecord>, user: Option<string>,
                         chapters: seq<string>, score: nat, answered: nat)
    ensures var rec := ResultRecord(UserLabel(user), chapters, score, answered);
            Visible(history + [rec], user) == Visible(history, user) + [rec]
  {
    VisibleAfterAppend(history, ResultRecord(UserLabel(user), chapters, score, answered), user);
  }
}
