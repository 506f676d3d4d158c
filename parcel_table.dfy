/**
 * The `parcel` table and the effect of each SQL statement the parcel store
 * issues against it, as values.
 *
 * The table is a map from parcel number (the primary key) to the remaining
 * columns of its row. Every statement is a function from the table before it
 * to the table after it; the `WHERE` clause of each statement becomes the
 * condition under which a row is touched.
 */
module ParcelTable {

  /** The status column holds free text; the store knows two values of it. */
  type Status = string

  /** The initial status: the only one under which a parcel's address may be
      changed and the parcel may be deleted. */
  const Registered: Status := "registered"

  /** The status of a parcel that has been dispatched. */
  const Sent: Status := "sent"

  /** A parcel as the store's callers see it: all columns, the number included. */
  datatype Parcel = Parcel(number: int, client: int, status: Status, address: string, createdAt: string)

  /** One row of the parcel table, without its primary key. */
  datatype Row = Row(client: int, status: Status, address: string, createdAt: string)

  /** The parcel table: parcel number to row. */
  type Table = map<int, Row>

  /** The two kinds of failure a caller can tell apart. */
  datatype StoreError =
    | NotFound        // the point lookup matched no row
    | StorageFailure  // anything the database engine reports

  /** A value or the error that replaced it. */
  datatype Result<T> = Ok(value: T) | Err(error: StoreError)

  /** The error-or-nothing answer of the statements that return no value. */
  datatype Outcome = Pass | Fail(error: StoreError)

  /** The columns an INSERT writes for `p`: every one but the number, which
      the engine assigns. */
  function RowOf(p: Parcel): Row {
    Row(p.client, p.status, p.address, p.createdAt)
  }

  /** The parcel a scan of row `number` fills in. */
  function AsParcel(number: int, row: Row): (p: Parcel)
    ensures p.number == number && RowOf(p) == row
  {
    Parcel(number, row.client, row.status, row.address, row.createdAt)
  }

  /** No statement changes the client or the creation time of a row that
      survives it (the number is the key, so it cannot change either). */
  ghost predicate KeepsIdentity(t: Table, t': Table) {
    forall n :: n in t && n in t' ==> t'[n].client == t[n].client && t'[n].createdAt == t[n].createdAt
  }

  /** The guard shared by the address update and the delete: the row exists
      and its status is still the initial one. */
  predicate Editable(t: Table, number: int) {
    number in t && t[number].status == Registered
  }

  /** The insert: stores the parcel's client, status, address and creation
      time under the number the engine picked. */
  function InsertRow(t: Table, number: int, p: Parcel): (t': Table)
    requires number !in t
    ensures t'.Keys == t.Keys + {number}
    ensures t'[number] == RowOf(p)
    ensures forall n :: n in t ==> t'[n] == t[n]
    ensures KeepsIdentity(t, t')
  {
    t[number := RowOf(p)]
  }

  /** The status update: sets the status of the row with that number,
      whatever it was; no row matches when the number is absent. */
  function UpdateStatus(t: Table, number: int, status: Status): (t': Table)
    ensures t'.Keys == t.Keys
    ensures number in t ==> t'[number] == t[number].(status := status)
    ensures forall n :: n in t && n != number ==> t'[n] == t[n]
    ensures KeepsIdentity(t, t')
  {
    if number in t then t[number := t[number].(status := status)] else t
  }

  /** The address update: changes the address only of the row with that
      number whose status is still registered. */
  function UpdateAddress(t: Table, number: int, address: string): (t': Table)
    ensures t'.Keys == t.Keys
    ensures Editable(t, number) ==> t'[number] == t[number].(address := address)
    ensures !Editable(t, number) ==> t' == t
    ensures forall n :: n in t && n != number ==> t'[n] == t[n]
    ensures KeepsIdentity(t, t')
  {
    if Editable(t, number) then t[number := t[number].(address := address)] else t
  }

  /** The delete: removes the row with that number only while its status is
      registered. */
  function DeleteRow(t: Table, number: int): (t': Table)
    ensures t'.Keys == if Editable(t, number) then t.Keys - {number} else t.Keys
    ensures forall n :: n in t' ==> t'[n] == t[n]
    ensures number in t' <==> number in t && t[number].status != Registered
    ensures KeepsIdentity(t, t')
  {
    if Editable(t, number) then t - {number} else t
  }

  /** The numbers of the rows the client query selects: those whose client
      column equals `client`. */
  function ClientNumbers(t: Table, client: int): set<int> {
    set n | n in t && t[n].client == client
  }

  /** The part of the client selection below `bound`: what a scan in number
      order has yielded once it reaches `bound`. */
  function ClientNumbersBelow(t: Table, client: int, bound: int): set<int> {
    set n | n in t && t[n].client == client && n < bound
  }

  /** One scan step adds the scanned number exactly when its row matches. */
  lemma ScanStep(t: Table, client: int, n: int)
    ensures ClientNumbersBelow(t, client, n + 1)
         == ClientNumbersBelow(t, client, n) + if n in t && t[n].client == client then {n} else {}
  {
  }

  /** A scan that has passed every stored number has yielded the whole
      selection. */
  lemma ScanComplete(t: Table, client: int, bound: int)
    requires forall n :: n in t ==> n < bound
    ensures ClientNumbersBelow(t, client, bound) == ClientNumbers(t, client)
  {
  }

  /** The parcel numbers in a sequence of parcels. */
  function Numbers(s: seq<Parcel>): set<int> {
    if s == [] then {} else Numbers(s[..|s| - 1]) + {s[|s| - 1].number}
  }

  /** No number occurs twice in `s`. */
  predicate DistinctNumbers(s: seq<Parcel>) {
    forall i, j :: 0 <= i < j < |s| ==> s[i].number != s[j].number
  }

  /** Every element's number is among the sequence's numbers, and there are
      never more numbers than elements. */
  lemma {:induction false} NumbersBound(s: seq<Parcel>)
    ensures forall i :: 0 <= i < |s| ==> s[i].number in Numbers(s)
    ensures |Numbers(s)| <= |s|
  {
    if s != [] {
      NumbersBound(s[..|s| - 1]);
    }
  }

  /** A sequence with as many numbers as elements repeats no number: a
      result listing every matching number, and no more elements than there
      are matching rows, lists each matching row exactly once. */
  lemma {:induction false} OncePerNumber(s: seq<Parcel>)
    requires |Numbers(s)| == |s|
    ensures DistinctNumbers(s)
  {
    if s != [] {
      var init, last := s[..|s| - 1], s[|s| - 1];
      NumbersBound(init);
      assert Numbers(s) == Numbers(init) + {last.number};
      assert last.number !in Numbers(init);
      OncePerNumber(init);
      forall i, j | 0 <= i < j < |s| ensures s[i].number != s[j].number {
        if j < |s| - 1 {
          assert s[i] == init[i] && s[j] == init[j];
        } else {
          assert s[i] == init[i];
        }
      }
    }
  }

  /** A parcel added for `client` joins that client's selection and one added
      for another client leaves it as it was, whatever else the table holds. */
  lemma ClientNumbersAfterInsert(t: Table, number: int, p: Parcel, client: int)
    requires number !in t
    ensures ClientNumbers(InsertRow(t, number, p), client)
         == if p.client == client then ClientNumbers(t, client) + {number} else ClientNumbers(t, client)
    ensures |ClientNumbers(InsertRow(t, number, p), client)|
         == |ClientNumbers(t, client)| + if p.client == client then 1 else 0
  {
  }

  /** The updates never move a row from one client's selection to another's,
      and a delete only drops the deleted row from it. */
  lemma ClientNumbersAfterUpdates(t: Table, number: int, status: Status, address: string, client: int)
    ensures ClientNumbers(UpdateStatus(t, number, status), client) == ClientNumbers(t, client)
    ensures ClientNumbers(UpdateAddress(t, number, address), client) == ClientNumbers(t, client)
    ensures ClientNumbers(DeleteRow(t, number), client)
         == if Editable(t, number) then ClientNumbers(t, client) - {number} else ClientNumbers(t, client)
  {
  }

  /** Deleting a registered parcel right after adding it restores the table:
      the add is undone. */
  lemma DeleteUndoesAdd(t: Table, number: int, p: Parcel)
    requires number !in t && p.status == Registered
    ensures DeleteRow(InsertRow(t, number, p), number) == t
  {
  }

  /** A second delete of the same number changes nothing. */
  lemma DeleteIdempotent(t: Table, number: int)
    ensures DeleteRow(DeleteRow(t, number), number) == DeleteRow(t, number)
  {
  }

  /** Once a parcel is sent, neither its address nor its presence can change
      through the gated statements; the status update alone still applies. */
  lemma Lifecycle(t: Table, number: int, p: Parcel, first: string, second: string)
    requires number !in t && p.status == Registered
    ensures var added := InsertRow(t, number, p);
            var moved := UpdateAddress(added, number, first);
            var sent := UpdateStatus(moved, number, Sent);
            var blocked := UpdateAddress(sent, number, second);
            var kept := DeleteRow(blocked, number);
            kept == sent && number in kept && kept[number] == Row(p.client, Sent, first, p.createdAt)
  {
  }
}
