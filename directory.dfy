/**
 * The user directory ("ユーザーマスター" worksheet): one row per person,
 * columns [name, email, department(s), role], row 0 being the header.
 */
module Directory {
  import opened Text
  import opened Sheet

  /**
   * One directory entry. `deptStr` is the trimmed department cell as typed
   * (shown on screen and handed on to notification targeting); `deptList` is
   * its comma-separated pieces; an empty `role` means general staff.
   */
  datatype UserInfo = UserInfo(email: string, deptStr: string, deptList: seq<string>, role: string)

  /** The trimmed, non-empty pieces, in order. */
  function KeepNonEmpty(pieces: seq<string>): seq<string>
    decreases |pieces|
  {
    if pieces == [] then []
    else if Strip(pieces[0]) != "" then [Strip(pieces[0])] + KeepNonEmpty(pieces[1..])
    else KeepNonEmpty(pieces[1..])
  }

  /** The kept pieces are exactly the non-empty trimmed pieces. */
  lemma {:induction false} KeepNonEmptyMembers(pieces: seq<string>, x: string)
    ensures x in KeepNonEmpty(pieces) <==> x != "" && exists p :: p in pieces && Strip(p) == x
    decreases |pieces|
  {
    if pieces != [] {
      KeepNonEmptyMembers(pieces[1..], x);
      assert forall p :: p in pieces <==> p == pieces[0] || p in pieces[1..];
    }
  }

  /** The department list of a department cell: split at commas, trim, drop empty pieces. */
  function DeptList(deptStr: string): seq<string>
  {
    KeepNonEmpty(Split(deptStr, ','))
  }

  /** A department belongs to the list exactly when it is a non-empty trimmed piece of the cell. */
  lemma DeptListMembers(deptStr: string, x: string)
    ensures x in DeptList(deptStr) <==> x != "" && exists p :: p in Split(deptStr, ',') && Strip(p) == x
  {
    KeepNonEmptyMembers(Split(deptStr, ','), x);
  }

  /** Department list entries are non-empty, trimmed and free of commas. */
  lemma DeptListEntries(deptStr: string, x: string)
    requires x in DeptList(deptStr)
    ensures x != "" && ',' !in x && Stripped(x)
  {
    DeptListMembers(deptStr, x);
    var p :| p in Split(deptStr, ',') && Strip(p) == x;
    StripIsStripped(p);
    SplitNoSep(deptStr, ',');
    if ',' in x {
      StripKeepsOnly(p, ',');
    }
  }

  /** The record built from one data row; absent columns read as empty. */
  function ParseUser(row: Row): (u: UserInfo)
    ensures |row| <= 1 ==> u.email == ""
    ensures |row| <= 2 ==> u.deptStr == "" && u.deptList == []
    ensures |row| <= 3 ==> u.role == ""
    ensures u.deptList == DeptList(u.deptStr)
  {
    var deptStr := Strip(Cell(row, 2));
    assert Split("", ',') == [""];
    UserInfo(Strip(Cell(row, 1)), deptStr, DeptList(deptStr), Strip(Cell(row, 3)))
  }

  /** Every text field of a record is trimmed. */
  lemma ParseUserStripped(row: Row)
    ensures Stripped(ParseUser(row).email) && Stripped(ParseUser(row).deptStr) && Stripped(ParseUser(row).role)
  {
    StripIsStripped(Cell(row, 1));
    StripIsStripped(Cell(row, 2));
    StripIsStripped(Cell(row, 3));
  }

  /**
   * The dictionary a loader fills from the rows before index `n`, the header
   * row excluded: every row with a key stores `parse(row)` under its first
   * cell, a later row overwriting an earlier one with the same key.
   */
  function KeyedUpTo<V>(rows: seq<Row>, n: nat, parse: Row -> V): map<string, V>
    requires n <= 1 || n <= |rows|
  {
    if n <= 1 then map[]
    else
      var m := KeyedUpTo(rows, n - 1, parse);
      var row := rows[n - 1];
      if HasKey(row) then m[row[0] := parse(row)] else m
  }

  /** The keys are exactly the non-empty first cells of the data rows. */
  lemma {:induction false} KeyedKeys<V>(rows: seq<Row>, n: nat, parse: Row -> V, name: string)
    requires n <= |rows|
    ensures name in KeyedUpTo(rows, n, parse) <==> exists i :: 1 <= i < n && HasKey(rows[i]) && rows[i][0] == name
  {
    if n > 1 {
      KeyedKeys(rows, n - 1, parse, name);
      if name in KeyedUpTo(rows, n, parse) && name !in KeyedUpTo(rows, n - 1, parse) {
        assert HasKey(rows[n - 1]) && rows[n - 1][0] == name;
      }
    }
  }

  /** A key's value comes from the last row carrying that key. */
  lemma {:induction false} KeyedLatestRow<V>(rows: seq<Row>, n: nat, parse: Row -> V, i: nat)
    requires 1 <= i < n <= |rows| && HasKey(rows[i])
    requires forall j :: i < j < n && HasKey(rows[j]) ==> rows[j][0] != rows[i][0]
    ensures rows[i][0] in KeyedUpTo(rows, n, parse)
    ensures KeyedUpTo(rows, n, parse)[rows[i][0]] == parse(rows[i])
  {
    if i < n - 1 {
      KeyedLatestRow(rows, n - 1, parse, i);
    }
  }

  /** The directory built from the rows before index `n`. */
  function UsersUpTo(rows: seq<Row>, n: nat): map<string, UserInfo>
    requires n <= 1 || n <= |rows|
  {
    KeyedUpTo(rows, n, ParseUser)
  }

  /** The directory the whole worksheet yields. */
  function Users(rows: seq<Row>): map<string, UserInfo>
  {
    UsersUpTo(rows, |rows|)
  }

  /** Reads the worksheet rows into the directory, row by row. */
  method GetUsers(rows: seq<Row>) returns (users: map<string, UserInfo>)
    ensures users == Users(rows)
  {
    users := map[];
    var i := 1;
    while i < |rows|
      invariant 1 <= i && (i == 1 || i <= |rows|)
      invariant users == UsersUpTo(rows, i)
    {
      var row := rows[i];
      if |row| > 0 && row[0] != "" {
        users := users[row[0] := ParseUser(row)];
      }
      i := i + 1;
    }
  }

  /** A name is in the directory exactly when some data row carries it in its first cell. */
  lemma UsersKeys(rows: seq<Row>, name: string)
    ensures name in Users(rows) <==> exists i :: 1 <= i < |rows| && HasKey(rows[i]) && rows[i][0] == name
  {
    KeyedKeys(rows, |rows|, ParseUser, name);
  }

  /** Every directory key is a non-empty name. */
  lemma NamesNonEmpty(rows: seq<Row>, name: string)
    requires name in Users(rows)
    ensures name != ""
  {
    UsersKeys(rows, name);
  }

  /** When a name occurs on several rows, the last of them decides its record. */
  lemma UsersLatestRow(rows: seq<Row>, i: nat)
    requires 1 <= i < |rows| && HasKey(rows[i])
    requires forall j :: i < j < |rows| && HasKey(rows[j]) ==> rows[j][0] != rows[i][0]
    ensures rows[i][0] in Users(rows)
    ensures Users(rows)[rows[i][0]] == ParseUser(rows[i])
  {
    KeyedLatestRow(rows, |rows|, ParseUser, i);
  }
}
