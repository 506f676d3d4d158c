/**
 * The parcel store: the single gateway to the parcel table.
 *
 * The store object stands for the table behind its database handle. Each
 * method issues one statement of module ParcelTable and reports what the
 * engine reports; the engine's verdict on a call (whether the statement
 * failed) is a parameter, since the engine itself is not modelled.
 */
module Tracker {
  import opened ParcelTable

  /** What the engine does with an INSERT: it succeeds and reports the new
      number, it fails before writing anything, or it writes the row but
      cannot report the number it assigned. */
  datatype InsertOutcome = Inserted | ExecFails | IdUnavailable

  class ParcelStore {
    /** The rows of the parcel table, keyed by parcel number. */
    var table: Table
    /** The largest number the engine has handed out; every number it hands
        out next is larger, hence fresh. */
    var lastNumber: nat

    /** Every stored number is positive and was handed out already. */
    ghost predicate Valid()
      reads this
    {
      forall n :: n in table ==> 0 < n <= lastNumber
    }

    /** A store over a database that already holds `rows`, whose engine has
        handed out numbers up to `last`. */
    constructor (rows: Table, last: nat)
      requires forall n :: n in rows ==> 0 < n <= last
      ensures Valid() && table == rows && lastNumber == last
    {
      table, lastNumber := rows, last;
    }

    /** Inserts `p` (its number is ignored) and returns the number assigned. */
    method Add(p: Parcel, insert: InsertOutcome) returns (r: Result<int>)
      requires Valid()
      modifies this
      ensures Valid()
      ensures old(lastNumber) <= lastNumber
      ensures insert == ExecFails ==> r == Err(StorageFailure) && table == old(table) && lastNumber == old(lastNumber)
      ensures insert != ExecFails ==> lastNumber !in old(table) && table == InsertRow(old(table), lastNumber, p)
      ensures insert == IdUnavailable ==> r == Err(StorageFailure)
      ensures insert == Inserted ==> r == Ok(lastNumber) && r.value > 0 && r.value !in old(table)
      ensures r.Ok? ==> Get(r.value, false) == Ok(p.(number := r.value))
    {
      if insert == ExecFails {
        return Err(StorageFailure);
      }
      lastNumber := lastNumber + 1;
      table := InsertRow(table, lastNumber, p);
      if insert == IdUnavailable {
        return Err(StorageFailure);
      }
      return Ok(lastNumber);
    }

    /** The parcel stored under `number`; NotFound when there is none, and
        never a partly filled parcel. */
    function Get(number: int, fault: bool): (r: Result<Parcel>)
      reads this
      ensures r.Ok? <==> !fault && number in table
      ensures r.Ok? ==> r.value.number == number && RowOf(r.value) == table[number]
      ensures r.Err? ==> r.error == if fault then StorageFailure else NotFound
    {
      if fault then Err(StorageFailure)
      else if number in table then Ok(AsParcel(number, table[number]))
      else Err(NotFound)
    }

    /** All parcels of `client`, each once; an empty sequence when the client
        has none. The parcel table has no index on the client column, so the
        engine's cursor walks the table in number order and yields the rows
        that match; the contract promises no order. */
    method GetByClient(client: int, fault: bool) returns (r: Result<seq<Parcel>>)
      requires Valid()
      ensures r.Ok? <==> !fault
      ensures r.Err? ==> r.error == StorageFailure
      ensures r.Ok? ==> Numbers(r.value) == ClientNumbers(table, client)
      ensures r.Ok? ==> DistinctNumbers(r.value) && |r.value| == |ClientNumbers(table, client)|
      ensures r.Ok? ==> forall p :: p in r.value ==> p.number in table && p == AsParcel(p.number, table[p.number])
    {
      if fault {
        return Err(StorageFailure);
      }
      var res: seq<Parcel> := [];
      for n := 1 to lastNumber + 1
        invariant Numbers(res) == ClientNumbersBelow(table, client, n)
        invariant |Numbers(res)| == |res|
        invariant forall p :: p in res ==> p.number in table && p == AsParcel(p.number, table[p.number])
      {
        ScanStep(table, client, n);
        if n in table && table[n].client == client {
          var parcel := AsParcel(n, table[n]);
          assert (res + [parcel])[..|res|] == res;
          res := res + [parcel];
        }
      }
      ScanComplete(table, client, lastNumber + 1);
      OncePerNumber(res);
      return Ok(res);
    }

    /** Sets the status of parcel `number`, whatever it was; succeeds without
        effect when there is no such parcel. */
    method SetStatus(number: int, status: Status, fault: bool) returns (r: Outcome)
      requires Valid()
      modifies this`table
      ensures Valid()
      ensures r == if fault then Fail(StorageFailure) else Pass
      ensures table == if fault then old(table) else UpdateStatus(old(table), number, status)
      ensures !fault && number in old(table) ==> Get(number, false) == Ok(old(Get(number, false)).value.(status := status))
    {
      if fault {
        return Fail(StorageFailure);
      }
      table := UpdateStatus(table, number, status);
      return Pass;
    }

    /** Changes the address of parcel `number` only while it is registered;
        otherwise succeeds without effect. */
    method SetAddress(number: int, address: string, fault: bool) returns (r: Outcome)
      requires Valid()
      modifies this`table
      ensures Valid()
      ensures r == if fault then Fail(StorageFailure) else Pass
      ensures table == if fault then old(table) else UpdateAddress(old(table), number, address)
      ensures !fault && old(Editable(table, number)) ==> Get(number, false) == Ok(old(Get(number, false)).value.(address := address))
      ensures !old(Editable(table, number)) ==> table == old(table)
    {
      if fault {
        return Fail(StorageFailure);
      }
      table := UpdateAddress(table, number, address);
      return Pass;
    }

    /** Deletes parcel `number` only while it is registered; otherwise
        succeeds without effect. */
    method Delete(number: int, fault: bool) returns (r: Outcome)
      requires Valid()
      modifies this`table
      ensures Valid()
      ensures r == if fault then Fail(StorageFailure) else Pass
      ensures table == if fault then old(table) else DeleteRow(old(table), number)
      ensures !fault && old(Editable(table, number)) ==> Get(number, false) == Err(NotFound)
      ensures !old(Editable(table, number)) ==> table == old(table)
    {
      if fault {
        return Fail(StorageFailure);
      }
      table := DeleteRow(table, number);
      return Pass;
    }
  }
}
