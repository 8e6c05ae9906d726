/** The contact-message status table and the option lists derived from it
    for the status picker and the list filter. */
module Contact {
  import opened Wrappers

  /** `ContactStatus`: the keys of the status table. */
  datatype ContactStatus =
    | New | Contacted | InProgress | MeetingScheduled | ProposalSent
    | Negotiating | Completed | OnHold | Rejected | Archived
  {
    /** The status's key in the table. */
    function Key(): string
    {
      match this
      case New => "new"
      case Contacted => "contacted"
      case InProgress => "in-progress"
      case MeetingScheduled => "meeting-scheduled"
      case ProposalSent => "proposal-sent"
      case Negotiating => "negotiating"
      case Completed => "completed"
      case OnHold => "on-hold"
      case Rejected => "rejected"
      case Archived => "archived"
    }

    /** The `label` of the status's entry. */
    function Label(): string
    {
      match this
      case New => "New"
      case Contacted => "Contacted"
      case InProgress => "In Progress"
      case MeetingScheduled => "Meeting Scheduled"
      case ProposalSent => "Proposal Sent"
      case Negotiating => "Negotiating"
      case Completed => "Completed"
      case OnHold => "On Hold"
      case Rejected => "Rejected"
      case Archived => "Archived"
    }
  }

  /** The entries of `CONTACT_STATUSES` in declaration order, the order in
      which `Object.entries` lists them. */
  const Statuses: seq<ContactStatus> :=
    [New, Contacted, InProgress, MeetingScheduled, ProposalSent, Negotiating, Completed, OnHold, Rejected, Archived]

  /** The status a key names, if any: membership in `ContactStatus`. */
  function StatusOfKey(key: string): (r: Option<ContactStatus>)
    ensures r.Some? ==> r.value.Key() == key
  {
    if key == "new" then Some(New)
    else if key == "contacted" then Some(Contacted)
    else if key == "in-progress" then Some(InProgress)
    else if key == "meeting-scheduled" then Some(MeetingScheduled)
    else if key == "proposal-sent" then Some(ProposalSent)
    else if key == "negotiating" then Some(Negotiating)
    else if key == "completed" then Some(Completed)
    else if key == "on-hold" then Some(OnHold)
    else if key == "rejected" then Some(Rejected)
    else if key == "archived" then Some(Archived)
    else None
  }

  /** A key names exactly one status, so distinct statuses have distinct
      keys. */
  lemma KeyNamesStatus(s: ContactStatus)
    ensures StatusOfKey(s.Key()) == Some(s)
  {
  }

  lemma KeysDistinct(s: ContactStatus, t: ContactStatus)
    ensures s.Key() == t.Key() ==> s == t
  {
    KeyNamesStatus(s);
    KeyNamesStatus(t);
  }

  /** Every status is in the table, once. */
  lemma StatusesComplete(s: ContactStatus)
    ensures s in Statuses
    ensures forall i, j :: 0 <= i < j < |Statuses| ==> Statuses[i] != Statuses[j]
  {
  }

  /** An entry of a select list: its `value` and its `label`. */
  datatype SelectOption = SelectOption(value: string, caption: string)

  /** `Object.entries(...).map(([value, config]) => ({value, label}))` over
      a list of statuses. */
  function OptionsOf(statuses: seq<ContactStatus>): (r: seq<SelectOption>)
    ensures |r| == |statuses|
    ensures forall i :: 0 <= i < |statuses| ==> r[i] == SelectOption(statuses[i].Key(), statuses[i].Label())
  {
    if statuses == [] then []
    else [SelectOption(statuses[0].Key(), statuses[0].Label())] + OptionsOf(statuses[1..])
  }

  /** `STATUS_OPTIONS`. */
  function StatusOptions(): seq<SelectOption>
  {
    OptionsOf(Statuses)
  }

  /** `FILTER_OPTIONS`: `all` first, then the status options. */
  function FilterOptions(): seq<SelectOption>
  {
    [SelectOption("all", "All Contacts")] + StatusOptions()
  }

  /** `STATUS_OPTIONS` has ten entries, from `new`/`New` to
      `archived`/`Archived`. */
  lemma StatusOptionsEnds()
    ensures |StatusOptions()| == 10
    ensures StatusOptions()[0] == SelectOption("new", "New")
    ensures StatusOptions()[9] == SelectOption("archived", "Archived")
  {
  }

  /** Each status option's value is the key of the status in that place of
      the table, and its label is that status's label. */
  lemma StatusOptionAt(i: nat)
    requires i < 10
    ensures StatusOfKey(StatusOptions()[i].value) == Some(Statuses[i])
    ensures StatusOptions()[i].caption == Statuses[i].Label()
  {
    KeyNamesStatus(Statuses[i]);
  }

  /** The status option values are pairwise distinct. */
  lemma StatusValuesDistinct(i: nat, j: nat)
    requires i < j < 10
    ensures StatusOptions()[i].value != StatusOptions()[j].value
  {
    assert Statuses[i] != Statuses[j];
    KeysDistinct(Statuses[i], Statuses[j]);
  }

  /** Every status's key is among the status option values. */
  lemma StatusValuesCoverKeys(s: ContactStatus)
    ensures exists i :: 0 <= i < 10 && StatusOptions()[i].value == s.Key()
  {
    StatusesComplete(s);
    var i :| 0 <= i < 10 && Statuses[i] == s;
    assert StatusOptions()[i].value == s.Key();
  }

  /** `FILTER_OPTIONS` is `all`/`All Contacts` followed by the ten status
      options. */
  lemma FilterOptionsShape()
    ensures |FilterOptions()| == 11
    ensures FilterOptions()[0] == SelectOption("all", "All Contacts")
    ensures FilterOptions()[1..] == StatusOptions()
  {
    assert |StatusOptions()| == 10;
  }

  /** A status key is never `all`. */
  lemma KeyIsNotAll(s: ContactStatus)
    ensures s.Key() != "all"
  {
  }

  /** Over any table whose statuses are pairwise distinct, `all` followed by
      the table's options has pairwise distinct values. */
  lemma {:induction false} FilterValuesDistinctOver(statuses: seq<ContactStatus>, i: nat, j: nat)
    requires forall a, b :: 0 <= a < b < |statuses| ==> statuses[a] != statuses[b]
    requires i < j <= |statuses|
    ensures ([SelectOption("all", "All Contacts")] + OptionsOf(statuses))[i].value
         != ([SelectOption("all", "All Contacts")] + OptionsOf(statuses))[j].value
  {
    var o := OptionsOf(statuses);
    var f := [SelectOption("all", "All Contacts")] + o;
    assert f[j] == o[j - 1];
    KeyIsNotAll(statuses[j - 1]);
    if i > 0 {
      assert f[i] == o[i - 1];
      KeysDistinct(statuses[i - 1], statuses[j - 1]);
    }
  }

  /** The eleven filter values are pairwise distinct. */
  lemma FilterValuesDistinct(i: nat, j: nat)
    requires i < j < 11
    ensures FilterOptions()[i].value != FilterOptions()[j].value
  {
    StatusesComplete(New);
    FilterValuesDistinctOver(Statuses, i, j);
  }
}
