/**
 * The first-login dialog that offers to register an organization when the
 * signed-in user has none and no invitation (`NoExistingInvitationModal.tsx`).
 *
 * The browser's `localStorage` is a string-to-string map and the router
 * history is the list of paths pushed so far. Rendering is not modelled.
 */
module InvitationModal {
  import opened Wrappers

  const FirstLoginKey: string := "firstLogin"
  const StoredFalse: string := "false"
  const OrganizationRegisterPath: string := "/organization/organization-register"

  datatype Organization = Organization(id: int)
  datatype User = User(organization: Option<Organization>)
  datatype Invitation = Invitation(id: int)

  /** `localStorage.getItem(key)`: `None` for a missing key. */
  function GetItem(storage: map<string, string>, key: string): Option<string>
  {
    if key in storage then Some(storage[key]) else None
  }

  predicate IsJsonWhitespace(c: char)
  {
    c == ' ' || c == '\t' || c == '\n' || c == '\r'
  }

  predicate AllJsonWhitespace(s: string)
  {
    forall i :: 0 <= i < |s| ==> IsJsonWhitespace(s[i])
  }

  /** `s` without its leading JSON whitespace. */
  function TrimStart(s: string): (r: string)
    ensures |r| <= |s| && r == s[|s| - |r|..]
    ensures AllJsonWhitespace(s[..|s| - |r|])
    ensures r == [] || !IsJsonWhitespace(r[0])
  {
    if s != [] && IsJsonWhitespace(s[0]) then TrimStart(s[1..]) else s
  }

  /** `s` without its trailing JSON whitespace. */
  function TrimEnd(s: string): (r: string)
    ensures |r| <= |s| && r == s[..|r|]
    ensures AllJsonWhitespace(s[|r|..])
    ensures r == [] || !IsJsonWhitespace(r[|r| - 1])
  {
    if s != [] && IsJsonWhitespace(s[|s| - 1]) then TrimEnd(s[..|s| - 1]) else s
  }

  function Trim(s: string): string
  {
    TrimEnd(TrimStart(s))
  }

  /** `JSON.parse(localStorage.getItem('firstLogin')) === null`: a missing key is
      read as `null`, and so is a stored `null` literal. */
  function FirstLogin(stored: Option<string>): bool
  {
    stored.None? || Trim(stored.value) == "null"
  }

  lemma {:induction false} TrimStartPadded(pad: string, s: string)
    requires AllJsonWhitespace(pad)
    requires s == [] || !IsJsonWhitespace(s[0])
    ensures TrimStart(pad + s) == s
    decreases |pad|
  {
    if pad != [] {
      assert (pad + s)[1..] == pad[1..] + s;
      TrimStartPadded(pad[1..], s);
    } else {
      assert pad + s == s;
    }
  }

  lemma {:induction false} TrimEndPadded(s: string, pad: string)
    requires AllJsonWhitespace(pad)
    requires s == [] || !IsJsonWhitespace(s[|s| - 1])
    ensures TrimEnd(s + pad) == s
    decreases |pad|
  {
    if pad != [] {
      assert (s + pad)[..|s + pad| - 1] == s + pad[..|pad| - 1];
      TrimEndPadded(s, pad[..|pad| - 1]);
    } else {
      assert s + pad == s;
    }
  }

  /** `s` is JSON text for `null`: the literal with JSON whitespace around it. */
  ghost predicate IsNullText(s: string)
  {
    exists pre: string, post: string ::
      AllJsonWhitespace(pre) && AllJsonWhitespace(post) && s == pre + "null" + post
  }

  lemma TrimPaddedNull(pre: string, post: string)
    requires AllJsonWhitespace(pre) && AllJsonWhitespace(post)
    ensures Trim(pre + "null" + post) == "null"
  {
    assert pre + "null" + post == pre + ("null" + post);
    TrimStartPadded(pre, "null" + post);
    TrimEndPadded("null", post);
  }

  lemma PaddedNullIsNullText(pre: string, post: string)
    requires AllJsonWhitespace(pre) && AllJsonWhitespace(post)
    ensures IsNullText(pre + ("null" + post))
  {
    assert pre + ("null" + post) == pre + "null" + post;
  }

  lemma SplitAt(s: string, n: nat)
    requires n <= |s|
    ensures s == s[..n] + s[n..]
  {
  }

  lemma TrimmedNullIsPadded(s: string)
    requires Trim(s) == "null"
    ensures IsNullText(s)
  {
    var t := TrimStart(s);
    var u := TrimEnd(t);
    var pre, post := s[..|s| - |t|], t[|u|..];
    SplitAt(s, |s| - |t|);
    SplitAt(t, |u|);
    PaddedNullIsNullText(pre, post);
  }

  /** The stored value reads as `null` exactly when it is the literal `null`
      surrounded by nothing but JSON whitespace. */
  lemma FirstLoginIff(stored: Option<string>)
    ensures FirstLogin(stored) <==> (stored.None? || IsNullText(stored.value))
  {
    if stored.Some? {
      var s := stored.value;
      if Trim(s) == "null" {
        TrimmedNullIsPadded(s);
      }
      if IsNullText(s) {
        var pre: string, post: string :|
          AllJsonWhitespace(pre) && AllJsonWhitespace(post) && s == pre + "null" + post;
        TrimPaddedNull(pre, post);
      }
    }
  }

  /** The value the actions store never reads as a first login. */
  lemma StoredFalseIsNotFirstLogin()
    ensures !FirstLogin(Some(StoredFalse))
  {
    assert TrimStart(StoredFalse) == StoredFalse;
    assert TrimEnd(StoredFalse) == StoredFalse;
  }

  /** `checkUser()`: a user is signed in and belongs to no organization. */
  function CheckUser(user: Option<User>): bool
  {
    user.Some? && user.value.organization.None?
  }

  /** `showMessage`: no invitations, a signed-in user without organization, the
      dialog open, and a first login. */
  function ShowMessage(invitations: seq<Invitation>, user: Option<User>, isOpen: bool, firstLogin: bool): bool
  {
    |invitations| == 0 && CheckUser(user) && isOpen && firstLogin
  }

  /** The component: its `isOpen` state, the browser storage it reads and writes,
      and the navigation history it pushes to. */
  class NoExistingInvitationDialog {
    var isOpen: bool
    var localStorage: map<string, string>
    var history: seq<string>

    /** Mounting the component: `useState(true)`. */
    constructor (localStorage: map<string, string>, history: seq<string>)
      ensures isOpen && this.localStorage == localStorage && this.history == history
    {
      this.isOpen := true;
      this.localStorage := localStorage;
      this.history := history;
    }

    /** `firstLogin`, evaluated afresh on every render. */
    function IsFirstLogin(): bool
      reads this
    {
      FirstLogin(GetItem(localStorage, FirstLoginKey))
    }

    /** Whether the dialog is open for the given selector values: exactly when
        there is no invitation, the user is signed in without an organization,
        the dialog has not been closed, and the stored `firstLogin` is missing
        or the JSON text `null`. A stored `'false'` always hides it. */
    function Visible(invitations: seq<Invitation>, user: Option<User>): (r: bool)
      reads this
      ensures r <==> && invitations == []
                     && user.Some? && user.value.organization.None?
                     && isOpen
                     && (FirstLoginKey !in localStorage || IsNullText(localStorage[FirstLoginKey]))
      ensures r ==> GetItem(localStorage, FirstLoginKey) != Some(StoredFalse)
    {
      FirstLoginIff(GetItem(localStorage, FirstLoginKey));
      StoredFalseIsNotFirstLogin();
      ShowMessage(invitations, user, isOpen, IsFirstLogin())
    }

    /** `notNow`: close the dialog and remember the choice. */
    method NotNow()
      modifies this
      ensures !isOpen
      ensures localStorage == old(localStorage)[FirstLoginKey := StoredFalse]
      ensures history == old(history)
      ensures !IsFirstLogin()
      ensures forall invitations, user :: !Visible(invitations, user)
    {
      isOpen := false;
      localStorage := localStorage[FirstLoginKey := StoredFalse];
      StoredFalseIsNotFirstLogin();
    }

    /** `register`: go to the organization registration page, close the dialog
        and remember the choice. */
    method Register()
      modifies this
      ensures !isOpen
      ensures localStorage == old(localStorage)[FirstLoginKey := StoredFalse]
      ensures history == old(history) + [OrganizationRegisterPath]
      ensures !IsFirstLogin()
      ensures forall invitations, user :: !Visible(invitations, user)
    {
      history := history + [OrganizationRegisterPath];
      isOpen := false;
      localStorage := localStorage[FirstLoginKey := StoredFalse];
      StoredFalseIsNotFirstLogin();
    }

    /** Mounting the component again on the same page: `isOpen` starts over as true,
        the storage is kept. */
    method Remount()
      modifies this
      ensures isOpen
      ensures localStorage == old(localStorage) && history == old(history)
      ensures IsFirstLogin() == old(IsFirstLogin())
    {
      isOpen := true;
    }
  }

  /** Once either action has stored its answer, a later mount never shows the
      dialog again, whatever the invitations and the user. */
  method DismissedStaysHidden(storage: map<string, string>, register: bool,
                              invitations: seq<Invitation>, user: Option<User>)
    returns (shown: bool)
    ensures !shown
  {
    var dialog := new NoExistingInvitationDialog(storage, []);
    if register {
      dialog.Register();
    } else {
      dialog.NotNow();
    }
    dialog.Remount();
    shown := dialog.Visible(invitations, user);
  }
}
