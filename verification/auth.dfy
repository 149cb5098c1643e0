/** The signed-in user as the rest of the app sees it: the role check,
    the authenticated flag, and what logout does to the user. The session
    lookup against the identity provider is not modelled. */
module Auth {
  import opened Wrappers

  datatype Role = Admin | Regular | Visitor

  datatype User = User(id: string, discordId: string, displayName: string, avatar: string, role: Role)

  datatype AuthState = AuthState(user: Option<User>, isLoading: bool)

  /** `hasRole`: nobody signed in has no role; an admin has every role; a
      regular user has the regular role only. */
  predicate HasRole(user: Option<User>, role: Role) {
    if user.None? then false
    else if user.value.role == Admin then true
    else user.value.role == Regular && role == Regular
  }

  /** The four cases of the role check, as a table. */
  lemma HasRoleTable(user: Option<User>, role: Role)
    ensures user.None? ==> !HasRole(user, role)
    ensures user.Some? && user.value.role == Admin ==> HasRole(user, role)
    ensures user.Some? && user.value.role == Regular ==> (HasRole(user, role) <==> role == Regular)
    ensures user.Some? && user.value.role == Visitor ==> !HasRole(user, role)
  {
  }

  /** Having a role implies being signed in, and no role is held by a
      visitor, not even the visitor role. */
  lemma RoleNeedsSignIn(user: Option<User>, role: Role)
    ensures HasRole(user, role) ==> IsAuthenticated(user)
    ensures HasRole(user, role) ==> user.value.role != Visitor
  {
  }

  /** `isAuthenticated: !!user`. */
  predicate IsAuthenticated(user: Option<User>) {
    user.Some?
  }

  /** `logout`: the user is cleared. */
  function Logout(st: AuthState): (r: AuthState)
    ensures r.user.None? && r.isLoading == st.isLoading
  {
    st.(user := None)
  }

  /** After logout nobody is signed in and no role check passes. */
  lemma LogoutRevokesEverything(st: AuthState, role: Role)
    ensures !IsAuthenticated(Logout(st).user)
    ensures !HasRole(Logout(st).user, role)
  {
  }
}
