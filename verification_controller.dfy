/** VerificationController: who counts as the site administrator, and how the pending list
    and the two approval actions are gated. The repository methods it calls for these
    (GetPendingRestaurantsForAdminAsync, GetPendingMenuItemsForOwnerAsync,
    ApproveRestaurantAsync, ApproveMenuItemAsync) are not defined on ItemsDbRepository, so
    their results are parameters. */
module VerificationController {
  import opened Wrappers
  import opened Text
  import opened Models

  /** The signed-in IdentityUser and its Email. */
  datatype User = User(email: Option<string>)

  datatype UserInfo = UserInfo(email: string, isAdmin: bool)

  /** GetCurrentUserInfoAsync: the user's email, or "" without a user or email; the site
      administrator when it equals the configured admin email ignoring case. */
  function CurrentUserInfo(user: Option<User>, siteAdminEmail: Option<string>): (info: UserInfo)
    ensures user.None? || user.value.email.None? ==> info.email == ""
    ensures user.Some? && user.value.email.Some? ==> info.email == user.value.email.value
    ensures info.isAdmin <==> siteAdminEmail.Some? && EqualsIgnoreCase(info.email, siteAdminEmail.value)
  {
    var email := if user.Some? && user.value.email.Some? then user.value.email.value else "";
    UserInfo(email, siteAdminEmail.Some? && EqualsIgnoreCase(email, siteAdminEmail.value))
  }

  /** With no admin email configured nobody is the administrator. */
  lemma NoConfiguredAdminMeansNoAdmin(user: Option<User>)
    ensures !CurrentUserInfo(user, None).isAdmin
  {
  }

  /** PendingItemsViewModel. */
  datatype PendingItems = PendingItems(restaurants: seq<Restaurant>, menuItems: seq<MenuItem>)

  /** The Pending page: the administrator's pending restaurants only for the administrator,
      and the pending menu items the owner query gives for the user's email. */
  function Pending(user: Option<User>, siteAdminEmail: Option<string>,
                   pendingForAdmin: seq<Restaurant>, pendingForOwner: string -> seq<MenuItem>): (model: PendingItems)
    ensures var info := CurrentUserInfo(user, siteAdminEmail);
      && (info.isAdmin ==> model.restaurants == pendingForAdmin)
      && (!info.isAdmin ==> model.restaurants == [])
      && model.menuItems == pendingForOwner(info.email)
  {
    var info := CurrentUserInfo(user, siteAdminEmail);
    PendingItems(if info.isAdmin then pendingForAdmin else [], pendingForOwner(info.email))
  }

  datatype ActionResult = Forbidden | NotFound | RedirectToPending

  /** An action's result, and whether it called the mutating repository method. */
  datatype Approval = Approval(result: ActionResult, repositoryCalled: bool)

  /** ApproveRestaurant(id); approveRestaurant is ApproveRestaurantAsync's answer. */
  function ApproveRestaurant(user: Option<User>, siteAdminEmail: Option<string>,
                             approveRestaurant: int -> bool, id: int): (a: Approval)
    ensures !CurrentUserInfo(user, siteAdminEmail).isAdmin ==> a == Approval(Forbidden, false)
    ensures CurrentUserInfo(user, siteAdminEmail).isAdmin ==>
      a.repositoryCalled && (a.result == NotFound <==> !approveRestaurant(id)) && a.result != Forbidden
  {
    var info := CurrentUserInfo(user, siteAdminEmail);
    if !info.isAdmin then Approval(Forbidden, false)
    else if !approveRestaurant(id) then Approval(NotFound, true)
    else Approval(RedirectToPending, true)
  }

  /** ApproveMenuItem(id); approveMenuItem is ApproveMenuItemAsync(id, email, isAdmin)'s
      answer, which alone decides. */
  function ApproveMenuItem(user: Option<User>, siteAdminEmail: Option<string>,
                           approveMenuItem: (Guid, string, bool) -> bool, id: Guid): (a: Approval)
    ensures var info := CurrentUserInfo(user, siteAdminEmail);
      && a.repositoryCalled
      && (a.result == Forbidden <==> !approveMenuItem(id, info.email, info.isAdmin))
      && a.result != NotFound
  {
    var info := CurrentUserInfo(user, siteAdminEmail);
    if !approveMenuItem(id, info.email, info.isAdmin) then Approval(Forbidden, true)
    else Approval(RedirectToPending, true)
  }
}
