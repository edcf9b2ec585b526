/**
 * Notification targeting (`get_notify_targets`): which administrators are
 * told that a test-taker has finished the exam. The notification matrix
 * ("通知マスター" worksheet) has a header row [label, role name, role name, ...]
 * and one row per department [department or 全部署, ON/OFF, ON/OFF, ...].
 */
module Targeting {
  import opened Text
  import opened Sheet
  import opened Directory

  /** The department name that stands for every department. */
  const Wildcard: string := "全部署"

  /** A matrix cell that switches its column's role on: trimmed and upper-cased, it reads "ON". */
  predicate IsOn(cell: string)
  {
    Upper(Strip(cell)) == "ON"
  }

  /** The cells the "ON" test accepts are exactly the four spellings of "on", padded with whitespace. */
  lemma IsOnSpellings(cell: string)
    ensures IsOn(cell) <==> Strip(cell) in {"ON", "On", "oN", "on"}
  {
    var t := Strip(cell);
    if IsOn(cell) {
      assert |Upper(t)| == |t| == 2;
      assert Upper(t)[0] == UpperChar(t[0]) == 'O';
      assert Upper(t)[1] == UpperChar(t[1]) == 'N';
      assert t == [t[0], t[1]];
    }
  }

  /** A matrix row that applies to a test-taker of department `dept`. */
  predicate RowMatches(row: Row, dept: string)
  {
    |row| > 0 && (row[0] == dept || row[0] == Wildcard)
  }

  /** Cell (r, c) of the matrix switches role `name` on for department `dept`. */
  predicate SwitchesOn(matrix: seq<Row>, dept: string, name: string, r: int, c: int)
  {
    1 <= r < |matrix| && 1 <= c < |matrix[0]| && c < |matrix[r]|
    && RowMatches(matrix[r], dept) && IsOn(matrix[r][c]) && matrix[0][c] == name
  }

  /** Role `name` is active for `dept`: some applicable row has its column switched on. */
  ghost predicate RoleActive(matrix: seq<Row>, dept: string, name: string)
  {
    exists r, c :: SwitchesOn(matrix, dept, name, r, c)
  }

  /**
   * The active-role scan: the header names of every column switched on in a
   * row for `dept` or for the wildcard. A row too short to hold a column adds
   * nothing for that column.
   */
  method CollectActiveRoles(matrix: seq<Row>, dept: string) returns (roles: set<string>)
    requires |matrix| > 0
    ensures forall name :: name in roles <==> RoleActive(matrix, dept, name)
  {
    roles := {};
    var r := 1;
    while r < |matrix|
      invariant 1 <= r <= |matrix|
      invariant forall name :: name in roles <==> exists r', c :: r' < r && SwitchesOn(matrix, dept, name, r', c)
    {
      var row := matrix[r];
      if |row| > 0 && (row[0] == dept || row[0] == Wildcard) {
        roles := ScanRow(matrix, dept, r, roles);
      }
      r := r + 1;
    }
  }

  /** The inner loop of the scan: adds the roles that row `r`, an applicable row, switches on. */
  method ScanRow(matrix: seq<Row>, dept: string, r: nat, roles: set<string>) returns (out: set<string>)
    requires 1 <= r < |matrix| && RowMatches(matrix[r], dept)
    ensures forall name :: name in out <==> name in roles || exists c :: SwitchesOn(matrix, dept, name, r, c)
  {
    var header, row := matrix[0], matrix[r];
    out := roles;
    var idx := 0;
    while idx < |header| - 1
      invariant 0 <= idx && (idx == 0 || idx <= |header| - 1)
      invariant forall name :: name in out <==> name in roles || exists c :: c <= idx && SwitchesOn(matrix, dept, name, r, c)
    {
      var col := idx + 1;
      if |row| > col && IsOn(row[col]) {
        out := out + {header[col]};
        assert SwitchesOn(matrix, dept, header[col], r, col);
      }
      idx := idx + 1;
    }
  }

  /** A directory entry that receives the notice, given the set of active roles. */
  predicate Qualifies(info: UserInfo, roles: set<string>, examDept: string, examEmail: string)
  {
    && info.role in roles
    && info.email != examEmail
    && (Wildcard in info.deptList || examDept in info.deptList)
    && info.email != ""
  }

  /**
   * The directory scan: the address of every entry whose role is active,
   * that is not the test-taker's own and whose department list holds the
   * wildcard or the test-taker's department string. Entries are visited in
   * no particular order.
   */
  method CollectRecipients(users: map<string, UserInfo>, roles: set<string>, examDept: string, examEmail: string)
    returns (emails: seq<string>)
    ensures forall e :: e in emails <==>
              exists name :: name in users && users[name].email == e && Qualifies(users[name], roles, examDept, examEmail)
  {
    emails := [];
    var rest := users.Keys;
    while rest != {}
      invariant rest <= users.Keys
      invariant forall e :: e in emails <==>
                  exists name :: name in users.Keys - rest && users[name].email == e
                                 && Qualifies(users[name], roles, examDept, examEmail)
      decreases rest
    {
      var name :| name in rest;
      var info := users[name];
      rest := rest - {name};
      if Qualifies(info, roles, examDept, examEmail) {
        emails := emails + [info.email];
      }
    }
  }

  /** No address occurs twice. */
  predicate NoDuplicates(s: seq<string>)
  {
    forall i, j :: 0 <= i < j < |s| ==> s[i] != s[j]
  }

  /** `list(set(xs))`: the same addresses, each once. */
  method Dedupe(xs: seq<string>) returns (ys: seq<string>)
    ensures NoDuplicates(ys)
    ensures forall x :: x in ys <==> x in xs
  {
    ys := [];
    var seen: set<string> := {};
    var i := 0;
    while i < |xs|
      invariant 0 <= i <= |xs|
      invariant NoDuplicates(ys)
      invariant forall x :: x in seen <==> x in ys
      invariant forall x :: x in ys <==> x in xs[..i]
    {
      if xs[i] !in seen {
        ys := ys + [xs[i]];
        seen := seen + {xs[i]};
      }
      assert xs[..i + 1] == xs[..i] + [xs[i]];
      i := i + 1;
    }
    assert xs[..i] == xs;
  }

  /** A directory entry that receives the notice, with the active roles read off the matrix. */
  ghost predicate Eligible(info: UserInfo, matrix: seq<Row>, examDept: string, examEmail: string)
  {
    && RoleActive(matrix, examDept, info.role)
    && info.email != examEmail
    && (Wildcard in info.deptList || examDept in info.deptList)
    && info.email != ""
  }

  /**
   * `get_notify_targets` with the matrix rows and the directory passed in.
   * A test-taker with a role gets no broadcast (privacy gate); a matrix
   * without a data row, or with no role switched on for the department,
   * gives no recipient; otherwise every eligible entry's address, once.
   */
  method GetNotifyTargets(examDept: string, examRole: string, examEmail: string,
                          users: map<string, UserInfo>, matrix: seq<Row>)
    returns (emails: seq<string>)
    ensures examRole != "" ==> emails == []
    ensures |matrix| < 2 ==> emails == []
    ensures (forall name :: !RoleActive(matrix, examDept, name)) ==> emails == []
    ensures NoDuplicates(emails)
    ensures forall e :: e in emails ==>
              && e != "" && e != examEmail
              && exists name :: name in users && users[name].email == e && Eligible(users[name], matrix, examDept, examEmail)
    ensures examRole == "" && |matrix| >= 2 ==>
              forall name :: name in users && Eligible(users[name], matrix, examDept, examEmail) ==> users[name].email in emails
  {
    if examRole != "" {
      return [];
    }
    if |matrix| < 2 {
      return [];
    }
    var roles := CollectActiveRoles(matrix, examDept);
    if roles == {} {
      return [];
    }
    var found := CollectRecipients(users, roles, examDept, examEmail);
    emails := Dedupe(found);
  }

  /**
   * As written, a test-taker whose department cell lists several
   * departments reaches only wildcard entries: no department list entry
   * contains a comma, so none can equal the whole cell.
   */
  lemma MultiDepartmentReachesWildcardOnly(info: UserInfo, matrix: seq<Row>, examDept: string, examEmail: string)
    requires ',' in examDept
    requires info.deptList == DeptList(info.deptStr)
    requires Eligible(info, matrix, examDept, examEmail)
    ensures Wildcard in info.deptList
  {
    if examDept in info.deptList {
      DeptListEntries(info.deptStr, examDept);
    }
  }

  // Department matching per listed department, as the comment of
  // get_notify_targets describes it (a comma-separated match).

  /** A matrix row that applies to the test-taker under per-department matching. */
  predicate RowMatchesAny(row: Row, examDept: string)
  {
    |row| > 0 && (row[0] == examDept || row[0] == Wildcard || row[0] in DeptList(examDept))
  }

  /** Cell (r, c) switches role `name` on under per-department matching. */
  predicate SwitchesOnAny(matrix: seq<Row>, examDept: string, name: string, r: int, c: int)
  {
    1 <= r < |matrix| && 1 <= c < |matrix[0]| && c < |matrix[r]|
    && RowMatchesAny(matrix[r], examDept) && IsOn(matrix[r][c]) && matrix[0][c] == name
  }

  ghost predicate RoleActiveAny(matrix: seq<Row>, examDept: string, name: string)
  {
    exists r, c :: SwitchesOnAny(matrix, examDept, name, r, c)
  }

  /** Entries share a department with the test-taker when any listed department matches. */
  predicate SharesDepartment(info: UserInfo, examDept: string)
  {
    Wildcard in info.deptList || examDept in info.deptList
    || exists d :: d in DeptList(examDept) && d in info.deptList
  }

  /** Eligibility under per-department matching. */
  ghost predicate EligibleAnyDept(info: UserInfo, matrix: seq<Row>, examDept: string, examEmail: string)
  {
    && RoleActiveAny(matrix, examDept, info.role)
    && info.email != examEmail
    && SharesDepartment(info, examDept)
    && info.email != ""
  }

  /** Per-department matching notifies everyone the code as written notifies. */
  lemma AnyDeptExtendsAsWritten(info: UserInfo, matrix: seq<Row>, examDept: string, examEmail: string)
    requires Eligible(info, matrix, examDept, examEmail)
    ensures EligibleAnyDept(info, matrix, examDept, examEmail)
  {
    var r, c :| SwitchesOn(matrix, examDept, info.role, r, c);
    assert SwitchesOnAny(matrix, examDept, info.role, r, c);
  }

  /**
   * Per-department matching notifies everyone that any one of the
   * test-taker's listed departments, taken alone, would notify.
   */
  lemma AnyDeptCoversEachDepartment(info: UserInfo, matrix: seq<Row>, examDept: string, examEmail: string, d: string)
    requires d in DeptList(examDept)
    requires Eligible(info, matrix, d, examEmail)
    ensures EligibleAnyDept(info, matrix, examDept, examEmail)
  {
    var r, c :| SwitchesOn(matrix, d, info.role, r, c);
    assert SwitchesOnAny(matrix, examDept, info.role, r, c);
  }

  /** For a single-department test-taker both matchings agree. */
  lemma AnyDeptSingleDepartment(info: UserInfo, matrix: seq<Row>, examDept: string, examEmail: string)
    requires DeptList(examDept) == [examDept]
    ensures EligibleAnyDept(info, matrix, examDept, examEmail) <==> Eligible(info, matrix, examDept, examEmail)
  {
    if EligibleAnyDept(info, matrix, examDept, examEmail) {
      var r, c :| SwitchesOnAny(matrix, examDept, info.role, r, c);
      assert SwitchesOn(matrix, examDept, info.role, r, c);
    } else if Eligible(info, matrix, examDept, examEmail) {
      AnyDeptExtendsAsWritten(info, matrix, examDept, examEmail);
    }
  }

  /** The department lists of the two cells the counterexample below uses. */
  lemma SalesDepartmentLists()
    ensures DeptList("営業") == ["営業"]
    ensures "営業" in DeptList("営業,修理室")
  {
    StripStripped("営業");
    StripStripped("修理室");
    SplitJoin(["営業"], ',');
    SplitJoin(["営業", "修理室"], ',');
    assert Join(["営業", "修理室"], ',') == "営業,修理室";
    assert KeepNonEmpty(["営業"]) == ["営業"];
  }

  /** The plain cell "ON" switches its role on. */
  lemma OnIsOn()
    ensures IsOn("ON")
  {
    StripStripped("ON");
  }

  /** As written, the sales manager is not notified for a "営業,修理室" test-taker. */
  lemma CounterexampleAsWritten(manager: UserInfo, matrix: seq<Row>)
    requires manager == UserInfo("b@x", "営業", ["営業"], "部長")
    ensures !Eligible(manager, matrix, "営業,修理室", "a@x")
  {
    if Eligible(manager, matrix, "営業,修理室", "a@x") {
      SalesDepartmentLists();
      MultiDepartmentReachesWildcardOnly(manager, matrix, "営業,修理室", "a@x");
    }
  }

  /** Under per-department matching the sales row reaches the sales manager. */
  lemma CounterexampleAnyDept(manager: UserInfo, matrix: seq<Row>)
    requires manager == UserInfo("b@x", "営業", ["営業"], "部長")
    requires matrix == [["部署", "部長"], ["営業", "ON"]]
    ensures EligibleAnyDept(manager, matrix, "営業,修理室", "a@x")
  {
    SalesDepartmentLists();
    OnIsOn();
    assert RowMatchesAny(matrix[1], "営業,修理室");
    assert SwitchesOnAny(matrix, "営業,修理室", "部長", 1, 1);
    assert SharesDepartment(manager, "営業,修理室");
  }

  /**
   * A general-staff test-taker of "営業,修理室": the sales manager is not
   * notified as written, though the sales row switches the manager role on.
   */
  lemma MultiDepartmentCounterexample()
    ensures var manager := UserInfo("b@x", "営業", ["営業"], "部長");
            var matrix := [["部署", "部長"], ["営業", "ON"]];
            && manager.deptList == DeptList(manager.deptStr)
            && !Eligible(manager, matrix, "営業,修理室", "a@x")
            && EligibleAnyDept(manager, matrix, "営業,修理室", "a@x")
  {
    var manager := UserInfo("b@x", "営業", ["営業"], "部長");
    var matrix := [["部署", "部長"], ["営業", "ON"]];
    SalesDepartmentLists();
    CounterexampleAsWritten(manager, matrix);
    CounterexampleAnyDept(manager, matrix);
  }
}
