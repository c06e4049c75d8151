/** The administrator's user-approval page as a state machine over three pieces of
    page state: the pending users, the registered users, and the role chosen so far
    for each pending user. Database and RPC outcomes are inputs; each handler also
    returns the calls it issues, in order. */
module AdminDashboard {
  import opened Wrappers
  import opened Seqs
  import opened Profiles

  /** `ROLES`: the roles the approval select offers. */
  const AssignableRoles: seq<Role> := [Student, Teacher, Admin]

  /** A row of the pending list (`id, name, email`). */
  datatype PendingUser = PendingUser(id: string, name: string, email: string)

  /** A row of the registered list (`id, name, email, role`). */
  datatype Member = Member(id: string, name: string, email: string, role: Role)

  datatype Dashboard = Dashboard(pending: seq<PendingUser>, registered: seq<Member>, selections: map<string, Role>)

  /** The writes the handlers issue. */
  datatype Call = UpdateRole(userId: string, role: Role) | DeleteProfile(userId: string) | DeleteAuthUser(userId: string)

  /** What the page keeps true: nobody is both pending and registered, no registered
      user has the pending role, and every selection is an assignable role. */
  predicate Consistent(d: Dashboard) {
    && (forall i, j :: 0 <= i < |d.pending| && 0 <= j < |d.registered| ==> d.pending[i].id != d.registered[j].id)
    && (forall j :: 0 <= j < |d.registered| ==> d.registered[j].role != Pending)
    && (forall u :: u in d.selections ==> d.selections[u] in AssignableRoles)
  }

  /** The pending role is never offered. */
  lemma AssignableRolesExcludePending()
    ensures forall r: Role :: r in AssignableRoles <==> r != Pending
  {
    forall r: Role ensures r in AssignableRoles <==> r != Pending {
      match r
      case Student => assert AssignableRoles[0] == r;
      case Teacher => assert AssignableRoles[1] == r;
      case Admin => assert AssignableRoles[2] == r;
      case Pending =>
    }
  }

  // ---------------------------------------------------------------- loading and the guard

  /** Where the page sends a visitor: to the login page without a session or without a
      readable profile, to the dashboard for any role but administrator. */
  datatype Route = ToLogin | ToDashboard | Proceed

  /** The guard in `fetchData`; `profileRole` is `None` when the profile query failed or
      found nothing. */
  function AdminGuard(signedIn: bool, profileRole: Option<Role>): (r: Route)
    ensures r == Proceed <==> signedIn && profileRole == Some(Admin)
    ensures r == ToLogin <==> !signedIn || profileRole.None?
    ensures r == ToDashboard <==> signedIn && profileRole.Some? && profileRole.value != Admin
  {
    if !signedIn then ToLogin
    else if profileRole.None? then ToLogin
    else if profileRole.value != Admin then ToDashboard
    else Proceed
  }

  predicate IsPendingRow(m: Member) {
    m.role == Pending
  }

  function AsPending(m: Member): PendingUser {
    PendingUser(m.id, m.name, m.email)
  }

  /** The two queries of `fetchData` over the profiles with their e-mail: the pending
      rows, and the other rows except the administrator's own. Selections start empty. */
  function LoadDashboard(rows: seq<Member>, selfId: string): (d: Dashboard)
    ensures forall i :: 0 <= i < |d.pending| ==> exists j :: 0 <= j < |rows| && rows[j].role == Pending && d.pending[i] == AsPending(rows[j])
    ensures forall j :: 0 <= j < |rows| && rows[j].role == Pending ==> AsPending(rows[j]) in d.pending
    ensures forall i :: 0 <= i < |d.registered| ==> d.registered[i] in rows && d.registered[i].role != Pending && d.registered[i].id != selfId
    ensures forall j :: 0 <= j < |rows| && rows[j].role != Pending && rows[j].id != selfId ==> rows[j] in d.registered
    ensures d.selections == map[]
    ensures |d.pending| == |Filter(rows, IsPendingRow)|
    ensures forall i :: 0 <= i < |d.pending| ==> d.pending[i] == AsPending(Filter(rows, IsPendingRow)[i])
  {
    var pendingRows := Filter(rows, IsPendingRow);
    var pending := seq(|pendingRows|, i requires 0 <= i < |pendingRows| => AsPending(pendingRows[i]));
    assert forall j :: 0 <= j < |rows| && rows[j].role == Pending ==> AsPending(rows[j]) in pending by {
      forall j | 0 <= j < |rows| && rows[j].role == Pending ensures AsPending(rows[j]) in pending {
        assert rows[j] in pendingRows;
        var k :| 0 <= k < |pendingRows| && pendingRows[k] == rows[j];
        assert pending[k] == AsPending(rows[j]);
      }
    }
    assert forall i :: 0 <= i < |pending| ==> exists j :: 0 <= j < |rows| && rows[j].role == Pending && pending[i] == AsPending(rows[j]) by {
      forall i | 0 <= i < |pending| ensures exists j :: 0 <= j < |rows| && rows[j].role == Pending && pending[i] == AsPending(rows[j]) {
        assert pendingRows[i] in rows;
        var j :| 0 <= j < |rows| && rows[j] == pendingRows[i];
        assert pending[i] == AsPending(rows[j]);
      }
    }
    Dashboard(pending, Filter(rows, (m: Member) => m.role != Pending && m.id != selfId), map[])
  }

  /** Profile ids are unique. */
  predicate UniqueIds(rows: seq<Member>) {
    forall i, j :: 0 <= i < |rows| && 0 <= j < |rows| && rows[i].id == rows[j].id ==> i == j
  }

  /** A freshly loaded page is consistent: a profile has one role, so it lands in one list. */
  lemma LoadIsConsistent(rows: seq<Member>, selfId: string)
    requires UniqueIds(rows)
    ensures Consistent(LoadDashboard(rows, selfId))
  {
    var d := LoadDashboard(rows, selfId);
    forall i, j | 0 <= i < |d.pending| && 0 <= j < |d.registered|
      ensures d.pending[i].id != d.registered[j].id
    {
      var pr := Filter(rows, IsPendingRow);
      assert d.pending[i] == AsPending(pr[i]) && pr[i] in rows && pr[i].role == Pending;
      var a :| 0 <= a < |rows| && rows[a] == pr[i];
      var b :| 0 <= b < |rows| && rows[b] == d.registered[j];
      assert a != b;
    }
  }

  // ---------------------------------------------------------------- role selection

  /** `handleRoleChange`: records the chosen role for one user and touches nothing else. */
  function HandleRoleChange(d: Dashboard, userId: string, role: Role): (r: Dashboard)
    ensures r.pending == d.pending && r.registered == d.registered
    ensures userId in r.selections && r.selections[userId] == role
    ensures r.selections.Keys == d.selections.Keys + {userId}
    ensures forall u :: u in d.selections && u != userId ==> r.selections[u] == d.selections[u]
  {
    d.(selections := d.selections[userId := role])
  }

  lemma RoleChangeKeepsConsistent(d: Dashboard, userId: string, role: Role)
    requires Consistent(d) && role in AssignableRoles
    ensures Consistent(HandleRoleChange(d, userId, role))
  {
  }

  // ---------------------------------------------------------------- approval

  /** `pendingUsers.find(u => u.id === userId)`: the first pending row with that id. */
  function FindPending(pending: seq<PendingUser>, userId: string): (r: Option<PendingUser>)
    ensures r.None? <==> forall i :: 0 <= i < |pending| ==> pending[i].id != userId
    ensures r.Some? ==> (r.value.id == userId &&
      exists i :: 0 <= i < |pending| && pending[i] == r.value && forall k :: 0 <= k < i ==> pending[k].id != userId)
    decreases |pending|
  {
    if |pending| == 0 then None
    else if pending[0].id == userId then Some(pending[0])
    else
      var r := FindPending(pending[1..], userId);
      assert forall i :: 1 <= i < |pending| ==> pending[i] == pending[1..][i - 1];
      if r.Some? then
        var i :| 0 <= i < |pending[1..]| && pending[1..][i] == r.value && forall k :: 0 <= k < i ==> pending[1..][k].id != userId;
        assert pending[i + 1] == r.value;
        r
      else r
  }

  /** `prev.filter((u) => u.id !== userId)` on the pending list. */
  function RemovePending(pending: seq<PendingUser>, userId: string): (r: seq<PendingUser>)
    ensures forall i :: 0 <= i < |r| ==> r[i].id != userId && r[i] in pending
    ensures forall i :: 0 <= i < |pending| && pending[i].id != userId ==> pending[i] in r
  {
    Filter(pending, (p: PendingUser) => p.id != userId)
  }

  /** The same filter on the registered list. */
  function RemoveMember(registered: seq<Member>, userId: string): (r: seq<Member>)
    ensures forall i :: 0 <= i < |r| ==> r[i].id != userId && r[i] in registered
    ensures forall i :: 0 <= i < |registered| && registered[i].id != userId ==> registered[i] in r
  {
    Filter(registered, (m: Member) => m.id != userId)
  }

  datatype AssignError = NoRoleSelected | UpdateFailed

  datatype Step = Step(dash: Dashboard, calls: seq<Call>, error: Option<AssignError>)

  /** `handleAssignRole`. Without a selection nothing is written and nothing changes. A
      failed update changes nothing either. After a successful update the user leaves
      the pending list, joins the registered list once with the chosen role if they
      were pending, and only their selection is dropped. */
  function HandleAssignRole(d: Dashboard, userId: string, updateOk: bool): (r: Step)
    ensures userId !in d.selections ==> r == Step(d, [], Some(NoRoleSelected))
    ensures userId in d.selections ==> r.calls == [UpdateRole(userId, d.selections[userId])]
    ensures userId in d.selections && !updateOk ==> r.dash == d && r.error == Some(UpdateFailed)
    ensures userId in d.selections && updateOk ==>
      && r.error.None?
      && (forall i :: 0 <= i < |r.dash.pending| ==> r.dash.pending[i].id != userId && r.dash.pending[i] in d.pending)
      && (forall i :: 0 <= i < |d.pending| && d.pending[i].id != userId ==> d.pending[i] in r.dash.pending)
      && r.dash.selections.Keys == d.selections.Keys - {userId}
      && (forall u :: u in r.dash.selections ==> r.dash.selections[u] == d.selections[u])
      && (FindPending(d.pending, userId).None? ==> r.dash.registered == d.registered)
      && (FindPending(d.pending, userId).Some? ==>
            var p := FindPending(d.pending, userId).value;
            r.dash.registered == d.registered + [Member(p.id, p.name, p.email, d.selections[userId])])
  {
    if userId !in d.selections then Step(d, [], Some(NoRoleSelected))
    else
      var role := d.selections[userId];
      if !updateOk then Step(d, [UpdateRole(userId, role)], Some(UpdateFailed))
      else
        var registered := match FindPending(d.pending, userId)
          case Some(p) => d.registered + [Member(p.id, p.name, p.email, role)]
          case None => d.registered;
        Step(Dashboard(RemovePending(d.pending, userId), registered, d.selections - {userId}),
             [UpdateRole(userId, role)], None)
  }

  /** Approving a pending user adds exactly one registered row for them, with a role other
      than pending, and keeps the page consistent. */
  lemma ApprovalKeepsConsistent(d: Dashboard, userId: string, updateOk: bool)
    requires Consistent(d)
    ensures Consistent(HandleAssignRole(d, userId, updateOk).dash)
  {
    AssignableRolesExcludePending();
    var r := HandleAssignRole(d, userId, updateOk).dash;
    if userId in d.selections && updateOk {
      forall i, j | 0 <= i < |r.pending| && 0 <= j < |r.registered|
        ensures r.pending[i].id != r.registered[j].id
      {
        if j < |d.registered| {
          assert r.registered[j] == d.registered[j];
          var k :| 0 <= k < |d.pending| && d.pending[k] == r.pending[i];
        }
      }
    }
  }

  /** The approved user appears exactly once in the registered list afterwards. */
  lemma ApprovedOnce(d: Dashboard, userId: string)
    requires Consistent(d)
    requires userId in d.selections && FindPending(d.pending, userId).Some?
    ensures var reg := HandleAssignRole(d, userId, true).dash.registered;
            |reg| == |d.registered| + 1 && reg[|d.registered|].id == userId &&
            forall j :: 0 <= j < |d.registered| ==> reg[j].id != userId
  {
    var p := FindPending(d.pending, userId).value;
    var k :| 0 <= k < |d.pending| && d.pending[k] == p && forall m :: 0 <= m < k ==> d.pending[m].id != userId;
    var reg := HandleAssignRole(d, userId, true).dash.registered;
    forall j | 0 <= j < |d.registered| ensures reg[j].id != userId {
      assert d.pending[k].id != d.registered[j].id;
    }
  }

  // ---------------------------------------------------------------- deny and delete

  /** `handleDenyUser`. A cancelled confirmation does nothing. The profile delete comes
      first; when it fails, nothing else is called and nothing changes. When it
      succeeds, the auth-user RPC is called and, whatever it returns, exactly that user
      leaves the pending list. */
  function HandleDenyUser(d: Dashboard, userId: string, confirmed: bool, profileDeleteOk: bool, rpcOk: bool): (r: Step)
    ensures !confirmed ==> r == Step(d, [], None)
    ensures confirmed && !profileDeleteOk ==> r.dash == d && r.calls == [DeleteProfile(userId)]
    ensures confirmed && profileDeleteOk ==>
      && r.calls == [DeleteProfile(userId), DeleteAuthUser(userId)]
      && r.dash.registered == d.registered && r.dash.selections == d.selections
      && (forall i :: 0 <= i < |r.dash.pending| ==> r.dash.pending[i].id != userId && r.dash.pending[i] in d.pending)
      && (forall i :: 0 <= i < |d.pending| && d.pending[i].id != userId ==> d.pending[i] in r.dash.pending)
    ensures r.error.None?
  {
    if !confirmed then Step(d, [], None)
    else if !profileDeleteOk then Step(d, [DeleteProfile(userId)], None)
    else Step(d.(pending := RemovePending(d.pending, userId)), [DeleteProfile(userId), DeleteAuthUser(userId)], None)
  }

  /** The RPC's outcome never matters to the page. */
  lemma DenyIgnoresRpc(d: Dashboard, userId: string, confirmed: bool, profileDeleteOk: bool)
    ensures HandleDenyUser(d, userId, confirmed, profileDeleteOk, true) == HandleDenyUser(d, userId, confirmed, profileDeleteOk, false)
  {
  }

  /** `handleDeleteUser`: the same transitions as denial, on the registered list. */
  function HandleDeleteUser(d: Dashboard, userId: string, confirmed: bool, profileDeleteOk: bool, rpcOk: bool): (r: Step)
    ensures !confirmed ==> r == Step(d, [], None)
    ensures confirmed && !profileDeleteOk ==> r.dash == d && r.calls == [DeleteProfile(userId)]
    ensures confirmed && profileDeleteOk ==>
      && r.calls == [DeleteProfile(userId), DeleteAuthUser(userId)]
      && r.dash.pending == d.pending && r.dash.selections == d.selections
      && (forall i :: 0 <= i < |r.dash.registered| ==> r.dash.registered[i].id != userId && r.dash.registered[i] in d.registered)
      && (forall i :: 0 <= i < |d.registered| && d.registered[i].id != userId ==> d.registered[i] in r.dash.registered)
    ensures r.error.None?
  {
    if !confirmed then Step(d, [], None)
    else if !profileDeleteOk then Step(d, [DeleteProfile(userId)], None)
    else Step(d.(registered := RemoveMember(d.registered, userId)), [DeleteProfile(userId), DeleteAuthUser(userId)], None)
  }

  /** Denying and deleting only ever shrink the lists, so they keep the page consistent. */
  lemma RemovalKeepsConsistent(d: Dashboard, userId: string, confirmed: bool, profileDeleteOk: bool, rpcOk: bool)
    requires Consistent(d)
    ensures Consistent(HandleDenyUser(d, userId, confirmed, profileDeleteOk, rpcOk).dash)
    ensures Consistent(HandleDeleteUser(d, userId, confirmed, profileDeleteOk, rpcOk).dash)
  {
    var a := HandleDenyUser(d, userId, confirmed, profileDeleteOk, rpcOk).dash;
    forall i, j | 0 <= i < |a.pending| && 0 <= j < |a.registered|
      ensures a.pending[i].id != a.registered[j].id
    {
      var k :| 0 <= k < |d.pending| && d.pending[k] == a.pending[i];
    }
    var b := HandleDeleteUser(d, userId, confirmed, profileDeleteOk, rpcOk).dash;
    forall i, j | 0 <= i < |b.pending| && 0 <= j < |b.registered|
      ensures b.pending[i].id != b.registered[j].id
    {
      var k :| 0 <= k < |d.registered| && d.registered[k] == b.registered[j];
    }
  }
}
