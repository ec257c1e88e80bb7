/** The bottom navigation bar's notion of which tab is selected. */
module Navigation {
  import opened Wrappers

  /** A navigation destination; its route may be absent. */
  datatype Destination = Destination(route: Option<string>)

  /** A tab of the bottom bar, identified by its route (its title and icon only decorate it). */
  datatype Screen = Screen(route: string)

  const ContactsTab := Screen("contacts")
  const FavoritesTab := Screen("favorites")
  const SettingsTab := Screen("settings")

  /** The tabs of the bottom bar, in display order. */
  const BottomNavItems := [ContactsTab, FavoritesTab, SettingsTab]

  /**
   * `NavDestination?.isRouteActive(route)`: `this?.route == route`. A missing
   * destination, or one without a route, is never the active one.
   */
  function IsRouteActive(current: Option<Destination>, route: string): (active: bool)
    ensures current.None? ==> !active
    ensures current.Some? ==> (active <==> current.value.route == Some(route))
  {
    match current
    case None => false
    case Some(destination) => destination.route == Some(route)
  }

  /** One destination makes at most one route active. */
  lemma ActiveRouteUnique(current: Option<Destination>, a: string, b: string)
    requires IsRouteActive(current, a) && IsRouteActive(current, b)
    ensures a == b
  {
  }

  /** Exactly the tab whose route is the destination's is shown selected; no other is. */
  lemma {:induction false} SelectedTab(current: Option<Destination>, i: nat)
    requires i < |BottomNavItems|
    requires current == Some(Destination(Some(BottomNavItems[i].route)))
    ensures forall j :: 0 <= j < |BottomNavItems| ==> (IsRouteActive(current, BottomNavItems[j].route) <==> j == i)
  {
    forall j | 0 <= j < |BottomNavItems|
      ensures IsRouteActive(current, BottomNavItems[j].route) <==> j == i
    {
      if j != i {
        assert BottomNavItems[j].route != BottomNavItems[i].route;
      }
    }
  }
}
