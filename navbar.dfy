/** Which navigation links the top bar shows on a page, and which of them is highlighted. */
module Navbar {
  import opened Strings

  datatype NavLink = NavLink(to: string, text: string)

  /**
   * `isActiveLink`: the home link only on the home page, any other link on
   * every path it prefixes. A link is always active on its own page.
   */
  function IsActiveLink(to: string, path: string): (r: bool)
    ensures to == path ==> r
    ensures r ==> |to| <= |path| && path[..|to|] == to
    ensures r && to == "/" ==> path == "/"
  {
    (to == "/" && path == "/") || (to != "/" && StartsWith(path, to))
  }

  predicate IsAdminPage(path: string) {
    StartsWith(path, "/admin")
  }

  predicate IsAuthPage(path: string) {
    path == "/donor-login" || path == "/donor-register" || path == "/admin/login"
  }

  /** The four links every public page shows after the first one. */
  const CommonLinks: seq<NavLink> := [
    NavLink("/blood-banks", "Blood Banks"),
    NavLink("/find-blood", "Find Blood"),
    NavLink("/about-us", "About Us"),
    NavLink("/contact-us", "Contact Us")
  ]

  /** None of the links the bar can show leads into the admin area. */
  lemma LinksOutsideAdmin()
    ensures forall k :: 0 <= k < |CommonLinks| ==> !IsAdminPage(CommonLinks[k].to)
    ensures !IsAdminPage("/") && !IsAdminPage("/donor-home")
  {
    assert "/admin"[1] == 'a' && "/donor-home"[1] == 'd';
    assert "/blood-banks"[1] == 'b' && "/find-blood"[1] == 'f';
    assert "/about-us"[1] == 'a' && "/about-us"[2] == 'b' && "/admin"[2] == 'd';
    assert "/contact-us"[1] == 'c';
  }

  /**
   * `navLinks`: the nested conditional, first rule first. The bar shows no
   * link, one or five, and never a link into the admin area.
   */
  function NavLinks(path: string, isAuthenticated: bool): (r: seq<NavLink>)
    ensures |r| == 0 || |r| == 1 || |r| == 5
    ensures forall k :: 0 <= k < |r| ==> !IsAdminPage(r[k].to)
    ensures r == [] <==> IsAdminPage(path) && !IsAuthPage(path)
  {
    LinksOutsideAdmin();
    if IsAuthPage(path) then [NavLink("/", "Home")]
    else if IsAdminPage(path) && path != "/admin/login" then []
    else if isAuthenticated then [NavLink("/donor-home", "Dashboard")] + CommonLinks
    else [NavLink("/", "Home")] + CommonLinks
  }

  /** The home link is active exactly on the home page. */
  lemma HomeActiveOnlyAtHome(path: string)
    ensures IsActiveLink("/", path) <==> path == "/"
  {
  }

  /** Any other link is active on every path it is a prefix of, including longer, unrelated names. */
  lemma PrefixLinksActive(to: string, path: string)
    requires to != "/"
    ensures IsActiveLink(to, path) <==> |to| <= |path| && path[..|to|] == to
    ensures IsActiveLink("/donor-home", "/donor-homes")
  {
    assert "/donor-homes"[..|"/donor-home"|] == "/donor-home";
  }

  /** The sign-in and sign-up pages show only the home link, signed in or not. */
  lemma AuthPagesShowHomeOnly(path: string, isAuthenticated: bool)
    requires IsAuthPage(path)
    ensures NavLinks(path, isAuthenticated) == [NavLink("/", "Home")]
  {
  }

  /** "/admin/login" is both an admin page and a sign-in page, and the sign-in rule decides. */
  lemma AdminLoginIsBoth(isAuthenticated: bool)
    ensures IsAdminPage("/admin/login") && IsAuthPage("/admin/login")
    ensures NavLinks("/admin/login", isAuthenticated) == [NavLink("/", "Home")]
  {
    assert "/admin/login"[..|"/admin"|] == "/admin";
  }

  /** Every other admin path shows no links at all. */
  lemma AdminPagesShowNothing(path: string, isAuthenticated: bool)
    requires IsAdminPage(path) && !IsAuthPage(path)
    ensures NavLinks(path, isAuthenticated) == []
  {
  }

  /**
   * Everywhere else there are five links: the dashboard first when signed in,
   * home first otherwise, then the same four.
   */
  lemma PublicPagesShowFive(path: string, isAuthenticated: bool)
    requires !IsAdminPage(path) && !IsAuthPage(path)
    ensures |NavLinks(path, isAuthenticated)| == 5
    ensures NavLinks(path, isAuthenticated)[0] ==
              if isAuthenticated then NavLink("/donor-home", "Dashboard") else NavLink("/", "Home")
    ensures NavLinks(path, isAuthenticated)[1..] == NavLinks(path, !isAuthenticated)[1..] == CommonLinks
  {
  }
}
