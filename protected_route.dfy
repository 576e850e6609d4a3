/** The route guard: an anonymous session goes to the login page, a signed-in user of the
    wrong role goes to their own dashboard, everyone else sees the page. */
module Guard {
  import opened Wrappers
  import opened Types
  import Routes

  datatype Outcome = RedirectTo(path: string) | Render

  /** The dashboard of a role. */
  function DashboardOf(role: Role): string {
    if role == Teacher then Routes.TeacherDashboard else Routes.StudentDashboard
  }

  /** `ProtectedRoute({ allowedRole })` over the session's `isAuthenticated` and `user`. */
  function ProtectedRoute(isAuthenticated: bool, user: Option<User>, allowedRole: Option<Role>): (o: Outcome)
    ensures !isAuthenticated || user.None? ==> o == RedirectTo(Routes.Login)
    ensures isAuthenticated && user.Some? && allowedRole.Some? && user.value.role != allowedRole.value ==>
              o == RedirectTo(DashboardOf(user.value.role))
    ensures o == Render <==> isAuthenticated && user.Some? && (allowedRole.None? || user.value.role == allowedRole.value)
  {
    if !isAuthenticated || user.None? then RedirectTo(Routes.Login)
    else if allowedRole.Some? && user.value.role != allowedRole.value then RedirectTo(DashboardOf(user.value.role))
    else Render
  }

  /** A redirect to a dashboard always goes to the signed-in user's own dashboard. */
  lemma NoCrossDashboard(isAuthenticated: bool, user: Option<User>, allowedRole: Option<Role>)
    ensures ProtectedRoute(isAuthenticated, user, allowedRole) == RedirectTo(Routes.TeacherDashboard) ==>
              user.Some? && user.value.role == Teacher
    ensures ProtectedRoute(isAuthenticated, user, allowedRole) == RedirectTo(Routes.StudentDashboard) ==>
              user.Some? && user.value.role == Student
  {
    assert Routes.Login != Routes.TeacherDashboard && Routes.Login != Routes.StudentDashboard;
    assert Routes.TeacherDashboard != Routes.StudentDashboard;
  }
}
