/** The profile page: a fixed profile whose avatar shows the initials of the
    name, two buttons back to the directory, and a logout that clears the
    whole session. */
module Profile {
  import opened Wrappers
  import opened Text
  import opened Session
  import opened Routing

  const ProfileName := "Samik Bhandari"

  // ----- the avatar -----

  /** `n[0]` of each piece, joined: an empty piece's `undefined` joins as
      nothing. */
  function FirstChars(parts: seq<string>): string
    decreases |parts|
  {
    if parts == [] then ""
    else (if parts[0] == "" then "" else [parts[0][0]]) + FirstChars(parts[1..])
  }

  /** `name.split(' ').map(n => n[0]).join('')`: exactly the first
      character of every space-separated word, in order. */
  function Initials(name: string): (r: string)
    ensures r == WordStarts(name, true)
    ensures |r| <= |name| && ' ' !in r
  {
    WordStartsSplit(name, true);
    FirstChars(Split(name, ' '))
  }

  /** The reference definition: scanning left to right, every character that
      is not a space and follows the start or a space. */
  function WordStarts(s: string, afterSpace: bool): (r: string)
    ensures |r| <= |s|
    ensures forall i :: 0 <= i < |r| ==> r[i] != ' '
    decreases |s|
  {
    if s == [] then ""
    else (if s[0] != ' ' && afterSpace then [s[0]] else "") + WordStarts(s[1..], s[0] == ' ')
  }

  lemma {:induction false} WordStartsSplit(s: string, afterSpace: bool)
    ensures var parts := Split(s, ' ');
      WordStarts(s, afterSpace) ==
        (if afterSpace && parts[0] != "" then [parts[0][0]] else "") + FirstChars(parts[1..])
    decreases |s|
  {
    if s != [] {
      var rest := Split(s[1..], ' ');
      WordStartsSplit(s[1..], s[0] == ' ');
      if s[0] == ' ' {
        assert Split(s, ' ') == [""] + rest;
        assert ([""] + rest)[1..] == rest;
      } else {
        assert Split(s, ' ') == [[s[0]] + rest[0]] + rest[1..];
      }
    }
  }

  lemma {:induction false} WordStartsAppend(a: string, b: string, afterSpace: bool)
    requires a != []
    ensures WordStarts(a + b, afterSpace) == WordStarts(a, afterSpace) + WordStarts(b, a[|a| - 1] == ' ')
    decreases |a|
  {
    assert (a + b)[0] == a[0] && (a + b)[1..] == a[1..] + b;
    if |a| > 1 {
      WordStartsAppend(a[1..], b, a[0] == ' ');
    } else {
      assert a[1..] + b == b;
    }
  }

  /** A word without spaces contributes its first letter when it starts one,
      and nothing otherwise. */
  lemma {:induction false} OneWord(w: string, afterSpace: bool)
    requires w != [] && ' ' !in w
    ensures WordStarts(w, afterSpace) == if afterSpace then [w[0]] else ""
    decreases |w|
  {
    if |w| > 1 {
      assert w[1..][0] in w;
      OneWord(w[1..], false);
    }
  }

  /** Two words separated by one space give their two first letters. */
  lemma TwoWords(first: string, second: string)
    requires first != [] && second != [] && ' ' !in first && ' ' !in second
    ensures WordStarts(first + (" " + second), true) == [first[0], second[0]]
  {
    WordStartsAppend(first, " " + second, true);
    OneWord(first, true);
    assert (" " + second)[1..] == second;
    OneWord(second, true);
  }

  /** The fixed profile's avatar reads "SB". */
  lemma ProfileInitials(name: string)
    requires name == ProfileName
    ensures Initials(name) == "SB"
  {
    ProfileWordStarts();
  }

  lemma ProfileWordStarts()
    ensures WordStarts(ProfileName, true) == "SB"
  {
    assert ProfileName == "Samik" + (" " + "Bhandari");
    TwoWords("Samik", "Bhandari");
  }

  // ----- navigation -----

  /** `handleLogout`: remove the token and `currentuser`, then go to `/`. */
  function ProfileLogout(st: Storage): (out: (Storage, string))
    ensures GetItem(out.0, TokenKey).None? && GetItem(out.0, CurrentUserKey).None?
    ensures forall k :: k != TokenKey && k != CurrentUserKey ==> GetItem(out.0, k) == GetItem(st, k)
    ensures out.1 == "/"
  {
    (RemoveItems(st, {TokenKey, CurrentUserKey}), "/")
  }

  /** After the profile's logout the visitor sees the login page at once
      (`navigate('/')` renders the guard, which reads the emptied storage),
      whatever the storage was at the last load; from the next page load on,
      both signed-in pages send them back to it. */
  lemma ProfileLogoutEndsSession(loaded: Storage, st: Storage)
    ensures var (st', to) := ProfileLogout(st);
      && !HasSession(st')
      && InAppElement(to, loaded, st') == Render(LoginPage)
      && Follow(to, st', 2) == Some((LoginPage, 0))
      && Follow("/home", st', 2) == Some((LoginPage, 1))
      && Follow("/profile", st', 2) == Some((LoginPage, 1))
  {
    var (st', to) := ProfileLogout(st);
    assert Follow("/", st', 1) == Some((LoginPage, 0));
  }

  /** `navigate('/')` does not reload, so until the next load going back to
      `/home` or `/profile` still renders those pages. */
  lemma ProfileLogoutLeavesPagesUntilReload(loaded: Storage, st: Storage)
    requires HasSession(loaded)
    ensures var st' := ProfileLogout(st).0;
      && InAppElement("/home", loaded, st') == Render(HomePage)
      && InAppElement("/profile", loaded, st') == Render(ProfilePage)
  {
  }

  /** "Back to Home" and the close button both go to `/home` in-app, which
      renders the directory whenever the profile itself was reachable: that
      is, when the last load saw a session. */
  const BackTarget := "/home"

  lemma BackReachesDirectory(loaded: Storage, current: Storage)
    requires HasSession(loaded)
    ensures InAppElement(BackTarget, loaded, current) == Render(HomePage)
    ensures InAppElement("/profile", loaded, current) == Render(ProfilePage)
  {
  }
}
