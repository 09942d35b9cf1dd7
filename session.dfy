/** Page navigation (app.py:24-35, 50, 53, 114): the `page` entry of the
    session state selects which form a render pass shows, and two buttons
    switch it.
 */
module Navigation {

  import opened Wrappers
  import Registration

  /** The two forms the app can show. */
  datatype Page = Login | Register

  /** The value stored in the session for a page. */
  function PageName(p: Page): string
  {
    match p
    case Login => "Login"
    case Register => "Register"
  }

  /** The `if`/`elif` on the stored value: which form it shows, if any. */
  function Dispatch(name: string): (shown: Option<Page>)
    ensures shown.Some? <==> name == "Login" || name == "Register"
    ensures shown.Some? ==> PageName(shown.value) == name
  {
    if name == "Login" then Some(Login)
    else if name == "Register" then Some(Register)
    else None
  }

  /** Storing a page and reading it back gives the same page. */
  lemma DispatchPageName(p: Page)
    ensures Dispatch(PageName(p)) == Some(p)
  {
  }

  /** The per-user session state of the app. */
  class Session {

    /** `st.session_state.page`; None while the key is absent. */
    var page: Option<string>

    /** Once set, the page is one of the two the app knows. */
    ghost predicate Valid()
      reads this
    {
      page.Some? ==> Dispatch(page.value).Some?
    }

    /** The form a render pass shows: none while the page is unset or
        unknown. */
    function Shown(): (shown: Option<Page>)
      reads this
      ensures Valid() && page.Some? ==> shown.Some?
    {
      match page
      case None => None
      case Some(name) => Dispatch(name)
    }

    /** A fresh session: the key is absent. */
    constructor ()
      ensures page == None && Valid()
    {
      page := None;
    }

    /** The start of every render pass: set the page to 'Login' only when it
        is absent; an existing value is kept. */
    method InitPage()
      modifies this
      ensures old(page).None? ==> page == Some(PageName(Login))
      ensures old(page).Some? ==> page == old(page)
      ensures old(Valid()) ==> Valid() && Shown().Some?
    {
      if page.None? {
        page := Some(PageName(Login));
      }
    }

    /** switch_page: stores its argument and changes nothing else. */
    method SwitchPage(name: string)
      modifies this
      ensures page == Some(name)
      ensures Valid() <==> Dispatch(name).Some?
    {
      page := Some(name);
    }

    /** The "Register Here" button on the login form. */
    method RegisterHere()
      modifies this
      ensures page == Some(PageName(Register)) && Shown() == Some(Register) && Valid()
    {
      SwitchPage(PageName(Register));
    }

    /** The "Login Here" button on the registration form. */
    method LoginHere()
      modifies this
      ensures page == Some(PageName(Login)) && Shown() == Some(Login) && Valid()
    {
      SwitchPage(PageName(Login));
    }

    /** Submitting the registration form, shown on the Register page: the
        notices and the request are those of the submit branch, and no
        outcome, a successful registration included, changes the page. */
    method SubmitRegistration(form: Registration.Form, confirm: string, response: Registration.Response)
      returns (notices: seq<Registration.Notice>, request: Option<Registration.Form>)
      requires Shown() == Some(Register)
      ensures notices == Registration.Notices(form, confirm, response)
      ensures request == if Registration.Decide(form, confirm).Send? then Some(form) else None
      ensures unchanged(this) && Shown() == Some(Register)
    {
      notices, request := Registration.HandleSubmit(form, confirm, response);
    }
  }

  /** Three render passes of one session: the first shows the login form,
      "Register Here" leads to the registration form, which the next pass's
      initialisation leaves alone, and "Login Here" leads back. */
  method NavigationScenario()
  {
    var s := new Session();
    s.InitPage();
    assert s.Shown() == Some(Login);
    s.RegisterHere();
    s.InitPage();
    assert s.Shown() == Some(Register);
    s.LoginHere();
    s.InitPage();
    assert s.Shown() == Some(Login);
  }
}
