/**
 * The entry store: create, update and delete over the one ordered collection
 * of journal entries that the browser keeps under a fixed storage key. The
 * persisted blob is abstracted into the field `entries` of `EntryStore`; each
 * operation reads the whole collection, builds the new one with the pure
 * functions below and writes it back.
 */
module Storage {
  import opened Wrappers
  import opened Journal

  /** The caller-supplied part of a new entry: every field but `id`, `no` and `createdAt`. */
  datatype EntryFields = EntryFields(
    category: Category,
    activityDetails: string,
    activityStart: string,
    activityEnd: string,
    hoursSpent: real,
    activityOwner: string)

  /** A partial record: each field is either supplied (`Some`) or omitted (`None`). */
  datatype EntryUpdate = EntryUpdate(
    id: Option<string>,
    no: Option<int>,
    category: Option<Category>,
    activityDetails: Option<string>,
    activityStart: Option<string>,
    activityEnd: Option<string>,
    hoursSpent: Option<real>,
    activityOwner: Option<string>,
    createdAt: Option<string>)

  /** The partial record that supplies no field. */
  const NoChanges := EntryUpdate(None, None, None, None, None, None, None, None, None)

  /** What reading the storage key found. */
  datatype StoredBlob = Absent | Unparseable | Parsed(stored: seq<JournalEntry>)

  /** Reading the collection: a missing or unreadable blob reads as the empty collection. */
  function Load(blob: StoredBlob): (r: seq<JournalEntry>)
    ensures r != [] ==> blob.Parsed? && r == blob.stored
  {
    if blob.Parsed? then blob.stored else []
  }

  /** The ids present in a collection. */
  function Ids(s: seq<JournalEntry>): set<string>
  {
    set e | e in s :: e.id
  }

  /** The positional invariant: the `no` values are exactly 1..|s| in stored order. */
  predicate Numbered(s: seq<JournalEntry>) {
    forall i :: 0 <= i < |s| ==> s[i].no == i + 1
  }

  /** No two entries share an id. */
  predicate UniqueIds(s: seq<JournalEntry>) {
    forall i, j :: 0 <= i < j < |s| ==> s[i].id != s[j].id
  }

  /**
   * The record `addEntry` builds: exactly the supplied fields, plus the
   * store-assigned id, number and creation time.
   */
  function NewEntry(f: EntryFields, id: string, no: int, createdAt: string): (e: JournalEntry)
    ensures FieldsOf(e) == f
    ensures e.id == id && e.no == no && e.createdAt == createdAt
  {
    JournalEntry(id, no, f.category, f.activityDetails, f.activityStart, f.activityEnd,
                 f.hoursSpent, f.activityOwner, createdAt)
  }

  /** The caller-supplied fields of an entry. */
  function FieldsOf(e: JournalEntry): (f: EntryFields)
  {
    EntryFields(e.category, e.activityDetails, e.activityStart, e.activityEnd, e.hoursSpent, e.activityOwner)
  }

  /** Appending the entry numbered |s| + 1 keeps the numbering contiguous. */
  lemma AppendKeepsNumbered(s: seq<JournalEntry>, e: JournalEntry)
    requires Numbered(s) && e.no == |s| + 1
    ensures Numbered(s + [e])
  {
  }

  /** Appending an entry with an unused id keeps ids unique. */
  lemma AppendKeepsUniqueIds(s: seq<JournalEntry>, e: JournalEntry)
    requires UniqueIds(s) && e.id !in Ids(s)
    ensures UniqueIds(s + [e])
    ensures Ids(s + [e]) == Ids(s) + {e.id}
  {
  }

  /**
   * Object spread `{ ...e, ...u }`: every field the update supplies replaces
   * the entry's field, every omitted field keeps the entry's value. Nothing
   * protects `id`, `no` or `createdAt`: they survive exactly when the update
   * leaves them out.
   */
  function Merge(e: JournalEntry, u: EntryUpdate): (r: JournalEntry)
    ensures u.id.None? ==> r.id == e.id
    ensures u.no.None? ==> r.no == e.no
    ensures u.createdAt.None? ==> r.createdAt == e.createdAt
    ensures u.id.Some? ==> r.id == u.id.value
    ensures u.no.Some? ==> r.no == u.no.value
    ensures u.createdAt.Some? ==> r.createdAt == u.createdAt.value
    ensures FieldsOf(r) == EntryFields(
      u.category.GetOr(e.category), u.activityDetails.GetOr(e.activityDetails),
      u.activityStart.GetOr(e.activityStart), u.activityEnd.GetOr(e.activityEnd),
      u.hoursSpent.GetOr(e.hoursSpent), u.activityOwner.GetOr(e.activityOwner))
  {
    JournalEntry(
      u.id.GetOr(e.id), u.no.GetOr(e.no), u.category.GetOr(e.category),
      u.activityDetails.GetOr(e.activityDetails), u.activityStart.GetOr(e.activityStart),
      u.activityEnd.GetOr(e.activityEnd), u.hoursSpent.GetOr(e.hoursSpent),
      u.activityOwner.GetOr(e.activityOwner), u.createdAt.GetOr(e.createdAt))
  }

  /** `{ ...u, ...v }`: the fields of `v` where supplied, otherwise those of `u`. */
  function Combine(u: EntryUpdate, v: EntryUpdate): EntryUpdate
  {
    EntryUpdate(
      if v.id.Some? then v.id else u.id,
      if v.no.Some? then v.no else u.no,
      if v.category.Some? then v.category else u.category,
      if v.activityDetails.Some? then v.activityDetails else u.activityDetails,
      if v.activityStart.Some? then v.activityStart else u.activityStart,
      if v.activityEnd.Some? then v.activityEnd else u.activityEnd,
      if v.hoursSpent.Some? then v.hoursSpent else u.hoursSpent,
      if v.activityOwner.Some? then v.activityOwner else u.activityOwner,
      if v.createdAt.Some? then v.createdAt else u.createdAt)
  }

  /** Merging `u` and then `v` is merging their combination once: the later value of a field wins. */
  lemma MergeCompose(e: JournalEntry, u: EntryUpdate, v: EntryUpdate)
    ensures Merge(Merge(e, u), v) == Merge(e, Combine(u, v))
  {
  }

  /** Merging nothing changes nothing, and merging the same update twice equals merging it once. */
  lemma MergeNeutralAndIdempotent(e: JournalEntry, u: EntryUpdate)
    ensures Merge(e, NoChanges) == e
    ensures Merge(Merge(e, u), u) == Merge(e, u)
  {
  }

  /** `updateEntry`'s new collection: each entry with the id gets the update merged in, in place. */
  function Updated(s: seq<JournalEntry>, id: string, u: EntryUpdate): (r: seq<JournalEntry>)
    ensures |r| == |s|
    ensures forall i :: 0 <= i < |s| && s[i].id != id ==> r[i] == s[i]
    ensures forall i :: 0 <= i < |s| && s[i].id == id ==> r[i] == Merge(s[i], u)
  {
    seq(|s|, i requires 0 <= i < |s| => if s[i].id == id then Merge(s[i], u) else s[i])
  }

  /**
   * Two updates of the same id amount to one update with the combined
   * fields, provided the first does not move the entry to another id (after
   * which the second would no longer find it).
   */
  lemma UpdatedCompose(s: seq<JournalEntry>, id: string, u: EntryUpdate, v: EntryUpdate)
    requires u.id.None? || u.id == Some(id)
    ensures Updated(Updated(s, id, u), id, v) == Updated(s, id, Combine(u, v))
  {
  }

  /** Updating an id that is not present leaves the collection as it was. */
  lemma UpdateAbsentIsNoOp(s: seq<JournalEntry>, id: string, u: EntryUpdate)
    requires id !in Ids(s)
    ensures Updated(s, id, u) == s
  {
  }

  /**
   * An update that omits `no` keeps the numbering, one that omits `id` keeps
   * the id set, and one that omits all three protected fields leaves every
   * entry's id, number and creation time as they were.
   */
  lemma UpdateKeepsInvariants(s: seq<JournalEntry>, id: string, u: EntryUpdate)
    ensures u.no.None? && Numbered(s) ==> Numbered(Updated(s, id, u))
    ensures u.id.None? && UniqueIds(s) ==> UniqueIds(Updated(s, id, u))
    ensures u.id.None? ==> Ids(Updated(s, id, u)) == Ids(s)
    ensures u.id.None? && u.no.None? && u.createdAt.None? ==>
      forall i :: 0 <= i < |s| ==>
        Updated(s, id, u)[i].id == s[i].id && Updated(s, id, u)[i].no == s[i].no
        && Updated(s, id, u)[i].createdAt == s[i].createdAt
  {
  }

  /** `entries.filter(e => e.id !== id)`: the entries whose id differs, in their original order. */
  function Without(s: seq<JournalEntry>, id: string): (r: seq<JournalEntry>)
    ensures |r| <= |s|
    ensures forall e :: e in r <==> e in s && e.id != id
  {
    if s == [] then []
    else if s[0].id == id then Without(s[1..], id)
    else [s[0]] + Without(s[1..], id)
  }

  /** After the filter no entry has the deleted id. */
  lemma WithoutRemovesId(s: seq<JournalEntry>, id: string)
    ensures id !in Ids(Without(s, id))
    ensures Ids(Without(s, id)) == Ids(s) - {id}
  {
  }

  /** The filter never introduces a duplicate id. */
  lemma {:induction false} WithoutKeepsUnique(s: seq<JournalEntry>, id: string)
    requires UniqueIds(s)
    ensures UniqueIds(Without(s, id))
    decreases |s|
  {
    if s != [] {
      var t := s[1..];
      assert UniqueIds(t) by {
        forall i, j | 0 <= i < j < |t| ensures t[i].id != t[j].id {
          assert t[i] == s[i + 1] && t[j] == s[j + 1];
        }
      }
      WithoutKeepsUnique(t, id);
      if s[0].id != id {
        var w := Without(t, id);
        forall k | 0 <= k < |w| ensures w[k].id != s[0].id {
          assert w[k] in t;
          var m :| 0 <= m < |t| && t[m] == w[k];
          assert t[m] == s[m + 1];
        }
        assert Without(s, id) == [s[0]] + w;
      }
    }
  }

  /** The filter keeps relative order: it distributes over concatenation. */
  lemma {:induction false} WithoutConcat(a: seq<JournalEntry>, b: seq<JournalEntry>, id: string)
    ensures Without(a + b, id) == Without(a, id) + Without(b, id)
    decreases |a|
  {
    if a == [] {
      assert a + b == b;
    } else {
      assert (a + b)[0] == a[0] && (a + b)[1..] == a[1..] + b;
      WithoutConcat(a[1..], b, id);
    }
  }

  /** Filtering an id that is not present keeps the collection. */
  lemma {:induction false} WithoutAbsent(s: seq<JournalEntry>, id: string)
    requires id !in Ids(s)
    ensures Without(s, id) == s
    decreases |s|
  {
    if s != [] {
      assert s[0] in s;
      assert Ids(s[1..]) <= Ids(s) by {
        forall x | x in Ids(s[1..]) ensures x in Ids(s) {
          var e :| e in s[1..] && e.id == x;
          assert e in s;
        }
      }
      WithoutAbsent(s[1..], id);
    }
  }

  /** With unique ids, deleting a present id removes exactly one entry. */
  lemma {:induction false} WithoutUniqueLength(s: seq<JournalEntry>, id: string)
    requires UniqueIds(s) && id in Ids(s)
    ensures |Without(s, id)| == |s| - 1
    decreases |s|
  {
    var t := s[1..];
    if s[0].id == id {
      assert id !in Ids(t) by {
        forall k | 0 <= k < |t| ensures t[k].id != id {
          assert t[k] == s[k + 1];
        }
      }
      WithoutAbsent(t, id);
    } else {
      var e :| e in s && e.id == id;
      assert e in t;
      WithoutUniqueLength(t, id);
    }
  }

  /** The renumbering map: each entry's `no` becomes its 1-based position, nothing else changes. */
  function Renumbered(s: seq<JournalEntry>): (r: seq<JournalEntry>)
    ensures |r| == |s| && Numbered(r)
    ensures forall i :: 0 <= i < |s| ==> r[i].(no := s[i].no) == s[i]
  {
    seq(|s|, i requires 0 <= i < |s| => s[i].(no := i + 1))
  }

  /** Renumbering keeps the ids, and an already numbered collection is left as it is. */
  lemma RenumberedKeepsIds(s: seq<JournalEntry>)
    ensures Ids(Renumbered(s)) == Ids(s)
    ensures UniqueIds(s) ==> UniqueIds(Renumbered(s))
    ensures Numbered(s) ==> Renumbered(s) == s
  {
  }

  /** `deleteEntry`'s new collection: filter out the id, then renumber the survivors. */
  function Deleted(s: seq<JournalEntry>, id: string): (r: seq<JournalEntry>)
    ensures Numbered(r) && id !in Ids(r)
    ensures Ids(r) == Ids(s) - {id}
    ensures UniqueIds(s) ==> UniqueIds(r)
    ensures |r| <= |s|
    ensures |r| == |Without(s, id)|
    ensures forall i :: 0 <= i < |r| ==> r[i].(no := Without(s, id)[i].no) == Without(s, id)[i]
  {
    WithoutRemovesId(s, id);
    assert UniqueIds(s) ==> UniqueIds(Without(s, id)) by {
      if UniqueIds(s) {
        WithoutKeepsUnique(s, id);
      }
    }
    RenumberedKeepsIds(Without(s, id));
    Renumbered(Without(s, id))
  }

  /** The three store operations, as a value, for reasoning about sequences of calls. */
  datatype Op =
    | AddOp(fields: EntryFields, newId: string, createdAt: string)
    | UpdateOp(id: string, changes: EntryUpdate)
    | DeleteOp(id: string)

  /** The collection after one operation. */
  function Apply(s: seq<JournalEntry>, op: Op): (r: seq<JournalEntry>)
  {
    match op
    case AddOp(f, newId, createdAt) => s + [NewEntry(f, newId, |s| + 1, createdAt)]
    case UpdateOp(id, u) => Updated(s, id, u)
    case DeleteOp(id) => Deleted(s, id)
  }

  /** The collection after a run of operations, first to last. */
  function ApplyAll(s: seq<JournalEntry>, ops: seq<Op>): (r: seq<JournalEntry>)
    decreases |ops|
  {
    if ops == [] then s else ApplyAll(Apply(s, ops[0]), ops[1..])
  }

  /** No update in the run supplies a `no`. */
  predicate KeepsNumbers(ops: seq<Op>) {
    forall k :: 0 <= k < |ops| && ops[k].UpdateOp? ==> ops[k].changes.no.None?
  }

  /**
   * Any run of adds, deletes and updates that do not supply `no`, started from
   * a numbered collection, ends numbered 1..N.
   */
  lemma {:induction false} RunKeepsNumbered(s: seq<JournalEntry>, ops: seq<Op>)
    requires Numbered(s) && KeepsNumbers(ops)
    ensures Numbered(ApplyAll(s, ops))
    decreases |ops|
  {
    if ops != [] {
      var t := Apply(s, ops[0]);
      match ops[0] {
        case AddOp(f, newId, createdAt) =>
          AppendKeepsNumbered(s, NewEntry(f, newId, |s| + 1, createdAt));
        case UpdateOp(id, u) =>
          assert ops[0].changes.no.None?;
          UpdateKeepsInvariants(s, id, u);
        case DeleteOp(id) =>
      }
      assert KeepsNumbers(ops[1..]) by {
        forall k | 0 <= k < |ops[1..]| && ops[1..][k].UpdateOp?
          ensures ops[1..][k].changes.no.None?
        {
          assert ops[1..][k] == ops[k + 1];
        }
      }
      RunKeepsNumbered(t, ops[1..]);
    }
  }

  /**
   * The store. `entries` stands for the collection serialized under the
   * storage key; every method reads it, computes the new collection and
   * overwrites it.
   */
  class EntryStore {
    var entries: seq<JournalEntry>

    /** Opens the store on whatever the storage key currently holds. */
    constructor Open(blob: StoredBlob)
      ensures entries == Load(blob)
    {
      entries := Load(blob);
    }

    /**
     * `addEntry`: appends the supplied fields under the fresh id `id` (the
     * random UUID) with `no` = old length + 1 and the creation time
     * `createdAt`, and returns the new entry.
     */
    method Add(fields: EntryFields, id: string, createdAt: string) returns (e: JournalEntry)
      modifies this
      ensures FieldsOf(e) == fields && e.id == id && e.createdAt == createdAt
      ensures e.no == |old(entries)| + 1
      ensures entries == old(entries) + [e]
      ensures old(Numbered(entries)) ==> Numbered(entries)
      ensures old(UniqueIds(entries)) && id !in old(Ids(entries)) ==> UniqueIds(entries)
    {
      e := NewEntry(fields, id, |entries| + 1, createdAt);
      ghost var before := entries;
      entries := entries + [e];
      if Numbered(before) {
        AppendKeepsNumbered(before, e);
      }
      if UniqueIds(before) && id !in Ids(before) {
        AppendKeepsUniqueIds(before, e);
      }
    }

    /** `updateEntry`: merges `u` into every entry whose id is `id`; a missing id changes nothing. */
    method Update(id: string, u: EntryUpdate)
      modifies this
      ensures entries == Updated(old(entries), id, u)
      ensures id !in old(Ids(entries)) ==> entries == old(entries)
      ensures u.no.None? && old(Numbered(entries)) ==> Numbered(entries)
      ensures u.id.None? && old(UniqueIds(entries)) ==> UniqueIds(entries)
    {
      ghost var before := entries;
      entries := Updated(entries, id, u);
      if id !in Ids(before) {
        UpdateAbsentIsNoOp(before, id, u);
      }
      UpdateKeepsInvariants(before, id, u);
    }

    /**
     * `deleteEntry`: drops every entry with the id and renumbers the
     * survivors 1..N, also when the id was not present.
     */
    method Delete(id: string)
      modifies this
      ensures entries == Deleted(old(entries), id)
      ensures Numbered(entries) && id !in Ids(entries)
      ensures old(UniqueIds(entries)) ==> UniqueIds(entries)
      ensures |entries| == |Without(old(entries), id)|
      ensures forall i :: 0 <= i < |entries| ==>
        entries[i].(no := Without(old(entries), id)[i].no) == Without(old(entries), id)[i]
      ensures id !in old(Ids(entries)) ==> entries == Renumbered(old(entries))
      ensures id in old(Ids(entries)) && old(UniqueIds(entries)) ==> |entries| == |old(entries)| - 1
    {
      ghost var before := entries;
      entries := Deleted(entries, id);
      if id !in Ids(before) {
        WithoutAbsent(before, id);
      } else if UniqueIds(before) {
        WithoutUniqueLength(before, id);
      }
    }
  }
}
