/**
 The mailbox table behind `db.add_email`, `db.find_email`, `db.get_user_emails`
 and `db.delete_email`. Rows are kept in insertion order, which is the order in
 which a user's addresses are listed; an address occurs in at most one row.
 */
module MailboxStore {
  import opened Wrappers

  /** A chat user's numeric id. */
  type UserId = int

  /** What the table keeps about an address: its owner, the provider password
      and the provider's account id (used only for deletion). */
  datatype Entry = Entry(owner: UserId, password: string, accountId: string)

  datatype Row = Row(address: string, entry: Entry)

  type Store = seq<Row>

  /** At most one row per address. */
  ghost predicate Valid(s: Store) {
    forall i, j :: 0 <= i < j < |s| ==> s[i].address != s[j].address
  }

  /** `db.find_email(address)`: the entry stored for `address`, if any. */
  function Find(s: Store, address: string): (r: Option<Entry>)
    ensures r.None? <==> forall i :: 0 <= i < |s| ==> s[i].address != address
    ensures r.Some? ==> Row(address, r.value) in s
  {
    if |s| == 0 then None
    else if s[0].address == address then Some(s[0].entry)
    else
      var r := Find(s[1..], address);
      assert forall i :: 1 <= i < |s| ==> s[i] == s[1..][i - 1];
      r
  }

  /** In a valid table, every row is what `Find` returns for its address. */
  lemma {:induction false} FindRow(s: Store, row: Row)
    requires Valid(s)
    requires row in s
    ensures Find(s, row.address) == Some(row.entry)
  {
    if s[0] != row {
      assert row in s[1..];
      assert Valid(s[1..]);
      FindRow(s[1..], row);
      var i :| 1 <= i < |s| && s[i] == row;
      assert s[0].address != row.address;
    }
  }

  /** `db.delete_email(address)`: every row for `address` goes, the others stay in order. */
  function Remove(s: Store, address: string): (r: Store)
    ensures forall row :: row in r <==> row in s && row.address != address
    ensures |r| <= |s|
    ensures Valid(s) ==> Valid(r)
  {
    if |s| == 0 then []
    else if s[0].address == address then Remove(s[1..], address)
    else
      var t := Remove(s[1..], address);
      assert forall row :: row in s <==> row == s[0] || row in s[1..];
      assert Valid(s) ==> forall k :: 0 <= k < |t| ==> t[k] in s[1..] && t[k].address != s[0].address by {
        if Valid(s) {
          forall k | 0 <= k < |t|
            ensures t[k] in s[1..] && t[k].address != s[0].address
          {
            assert t[k] in t;
            var i :| 1 <= i < |s| && s[i] == t[k];
          }
        }
      }
      [s[0]] + t
  }

  /** Deletion works row by row, so the remaining rows keep their order. */
  lemma {:induction false} RemoveAppend(s: Store, t: Store, address: string)
    ensures Remove(s + t, address) == Remove(s, address) + Remove(t, address)
    decreases |s|
  {
    if |s| == 0 {
      assert s + t == t;
    } else {
      assert (s + t)[0] == s[0];
      assert (s + t)[1..] == s[1..] + t;
      RemoveAppend(s[1..], t, address);
    }
  }

  /** After removal the address is unknown and every other address is looked up as before. */
  lemma {:induction false} FindAfterRemove(s: Store, address: string, other: string)
    ensures Find(Remove(s, address), address).None?
    ensures other != address ==> Find(Remove(s, address), other) == Find(s, other)
  {
    if |s| > 0 {
      FindAfterRemove(s[1..], address, other);
      if s[0].address != address {
        assert Remove(s, address) == [s[0]] + Remove(s[1..], address);
        assert ([s[0]] + Remove(s[1..], address))[1..] == Remove(s[1..], address);
      }
    }
  }

  /** `FindAfterRemove` for every other address at once. */
  lemma FindAfterRemoveAll(s: Store, address: string)
    ensures Find(Remove(s, address), address).None?
    ensures forall other :: other != address ==> Find(Remove(s, address), other) == Find(s, other)
  {
    FindAfterRemove(s, address, address);
    forall other | other != address
      ensures Find(Remove(s, address), other) == Find(s, other)
    {
      FindAfterRemove(s, address, other);
    }
  }

  /** Deleting twice is deleting once. */
  lemma {:induction false} RemoveIdempotent(s: Store, address: string)
    ensures Remove(Remove(s, address), address) == Remove(s, address)
  {
    if |s| > 0 {
      RemoveIdempotent(s[1..], address);
      if s[0].address != address {
        var t := Remove(s[1..], address);
        assert ([s[0]] + t)[1..] == t;
      }
    }
  }

  /** `db.add_email(owner, address, password, account_id)`: the row for `address`
      is replaced by (or, for a new address, becomes) the last row of the table. */
  function Add(s: Store, owner: UserId, address: string, password: string, accountId: string): (r: Store)
    ensures Valid(s) ==> Valid(r)
    ensures |r| > 0 && r[|r| - 1] == Row(address, Entry(owner, password, accountId))
    ensures r[..|r| - 1] == Remove(s, address)
  {
    var t := Remove(s, address);
    var r := t + [Row(address, Entry(owner, password, accountId))];
    assert r[..|r| - 1] == t;
    assert Valid(s) ==> Valid(r) by {
      if Valid(s) {
        forall i | 0 <= i < |t| ensures t[i].address != address {
          assert t[i] in t;
        }
      }
    }
    r
  }

  /** After adding, the address maps to the new entry and every other address is looked up as before. */
  lemma FindAfterAdd(s: Store, owner: UserId, address: string, password: string, accountId: string, other: string)
    ensures Find(Add(s, owner, address, password, accountId), address) == Some(Entry(owner, password, accountId))
    ensures other != address ==> Find(Add(s, owner, address, password, accountId), other) == Find(s, other)
  {
    var t := Remove(s, address);
    var r := Add(s, owner, address, password, accountId);
    FindAppend(t, Row(address, Entry(owner, password, accountId)), address);
    FindAppend(t, Row(address, Entry(owner, password, accountId)), other);
    FindAfterRemove(s, address, other);
    assert r == t + [Row(address, Entry(owner, password, accountId))];
  }

  /** `FindAfterAdd` for every other address at once. */
  lemma FindAfterAddAll(s: Store, owner: UserId, address: string, password: string, accountId: string)
    ensures Find(Add(s, owner, address, password, accountId), address) == Some(Entry(owner, password, accountId))
    ensures forall other :: other != address ==>
              Find(Add(s, owner, address, password, accountId), other) == Find(s, other)
  {
    FindAfterAdd(s, owner, address, password, accountId, address);
    forall other | other != address
      ensures Find(Add(s, owner, address, password, accountId), other) == Find(s, other)
    {
      FindAfterAdd(s, owner, address, password, accountId, other);
    }
  }

  /** Appending a row only matters for addresses the table did not know yet. */
  lemma {:induction false} FindAppend(s: Store, row: Row, address: string)
    ensures Find(s + [row], address) == if Find(s, address).Some? then Find(s, address)
                                        else if row.address == address then Some(row.entry) else None
  {
    if |s| > 0 {
      assert (s + [row])[1..] == s[1..] + [row];
      FindAppend(s[1..], row, address);
    } else {
      assert s + [row] == [row];
    }
  }

  /** `db.get_user_emails(owner)`: the rows of `owner`, in table order. */
  function UserEmails(s: Store, owner: UserId): (r: seq<Row>)
    ensures forall row :: row in r <==> row in s && row.entry.owner == owner
    ensures |r| <= |s|
  {
    if |s| == 0 then []
    else
      var t := UserEmails(s[1..], owner);
      assert forall row :: row in s <==> row == s[0] || row in s[1..];
      if s[0].entry.owner == owner then [s[0]] + t else t
  }

  /** Listing distributes over concatenation, so it keeps table order. */
  lemma {:induction false} UserEmailsAppend(s: Store, t: Store, owner: UserId)
    ensures UserEmails(s + t, owner) == UserEmails(s, owner) + UserEmails(t, owner)
  {
    if |s| == 0 {
      assert s + t == t;
    } else {
      assert (s + t)[1..] == s[1..] + t;
      UserEmailsAppend(s[1..], t, owner);
    }
  }

  /** A new address is listed last among its owner's addresses. */
  lemma UserEmailsAfterAdd(s: Store, owner: UserId, address: string, password: string, accountId: string)
    ensures UserEmails(Add(s, owner, address, password, accountId), owner)
            == UserEmails(Remove(s, address), owner) + [Row(address, Entry(owner, password, accountId))]
  {
    var row := Row(address, Entry(owner, password, accountId));
    UserEmailsAppend(Remove(s, address), [row], owner);
    assert [row][1..] == [];
  }
}
