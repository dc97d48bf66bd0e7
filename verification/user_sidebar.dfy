/** The list of users still to pin, src/components/UserSidebar.tsx: the
    unpinned users, narrowed by a case-insensitive name search, each shown
    with its initials, with a message for an empty list and a footer count.
    Layout and styling are left out. */
module UserSidebar {
  import opened Common
  import opened UserModel
  import opened LegacyMapInteractionsModel

  /** `a` is `b` with some elements left out, the rest in the same order. */
  predicate IsSubsequence<T(==)>(a: seq<T>, b: seq<T>)
    decreases |a| + |b|
  {
    if a == [] then true
    else if b == [] then false
    else if a[0] == b[0] then IsSubsequence(a[1..], b[1..])
    else IsSubsequence(a, b[1..])
  }

  /** An element in front of `b` keeps `a` a subsequence. */
  lemma {:induction false} SubsequenceCons<T>(a: seq<T>, b: seq<T>, x: T)
    requires IsSubsequence(a, b)
    ensures IsSubsequence(a, [x] + b)
    decreases |a| + |b|, 1
  {
    if a != [] && a[0] == x {
      SubsequenceTail(a, b);
      assert ([x] + b)[1..] == b;
    } else if a != [] {
      assert ([x] + b)[1..] == b;
    }
  }

  /** Dropping the first element of a subsequence keeps it one. */
  lemma {:induction false} SubsequenceTail<T>(a: seq<T>, b: seq<T>)
    requires a != [] && IsSubsequence(a, b)
    ensures IsSubsequence(a[1..], b)
    decreases |a| + |b|, 0
  {
    if a[0] == b[0] {
      SubsequenceCons(a[1..], b[1..], b[0]);
      assert [b[0]] + b[1..] == b;
    } else {
      SubsequenceTail(a, b[1..]);
      SubsequenceCons(a[1..], b[1..], b[0]);
      assert [b[0]] + b[1..] == b;
    }
  }

  /** `user.name.toLowerCase().includes(searchTerm.toLowerCase())`: the
      lower-cased term occurs somewhere in the lower-cased name. */
  predicate NameMatches(u: User, searchTerm: string): (r: bool)
    ensures r <==> exists k: nat :: OccursAt(ToLower(u.name), ToLower(searchTerm), k)
  {
    IndexOfIsFirst(ToLower(u.name), ToLower(searchTerm));
    Contains(ToLower(u.name), ToLower(searchTerm))
  }

  /** `filteredUsers`: the users whose name matches the search, in order. */
  function Filtered(users: seq<User>, searchTerm: string): (r: seq<User>)
    ensures forall u :: u in r <==> u in users && NameMatches(u, searchTerm)
    ensures IsSubsequence(r, users)
  {
    if users == [] then []
    else
      var rest := Filtered(users[1..], searchTerm);
      if NameMatches(users[0], searchTerm) then
        assert ([users[0]] + rest)[1..] == rest;
        [users[0]] + rest
      else
        SubsequenceCons(rest, users[1..], users[0]);
        assert [users[0]] + users[1..] == users;
        rest
  }

  /** The sidebar's list: the unpinned users narrowed by the search term. */
  function Shown(users: seq<User>, searchTerm: string): (r: seq<User>)
    ensures forall u :: u in r <==> u in users && !u.pinned && NameMatches(u, searchTerm)
    ensures IsSubsequence(r, NotPinned(users))
  {
    Filtered(NotPinned(users), searchTerm)
  }

  /** The empty string occurs in every name, so an empty search hides
      nobody. */
  lemma {:induction false} EmptySearchShowsAll(users: seq<User>)
    ensures Filtered(users, "") == users
  {
    if users != [] {
      assert IndexOf(ToLower(users[0].name), ToLower("")) == Some(0);
      EmptySearchShowsAll(users[1..]);
      assert [users[0]] + users[1..] == users;
    }
  }

  /** The text in place of an empty list: 'No users found' while searching,
      'All users are pinned!' otherwise; nothing when the list has users. */
  function EmptyMessage(users: seq<User>, searchTerm: string): (r: Option<string>)
    ensures r.Some? <==> Shown(users, searchTerm) == []
    ensures r.Some? ==> r.value == (if searchTerm != "" then "No users found" else "All users are pinned!")
  {
    if Shown(users, searchTerm) == [] then
      Some(if searchTerm != "" then "No users found" else "All users are pinned!")
    else None
  }

  /** With no search, 'All users are pinned!' shows exactly when every user
      is pinned. */
  lemma AllPinnedMessage(users: seq<User>)
    ensures EmptyMessage(users, "") == Some("All users are pinned!") <==> forall u | u in users :: u.pinned
  {
    EmptySearchShowsAll(NotPinned(users));
    if NotPinned(users) != [] {
      assert NotPinned(users)[0] in NotPinned(users);
    }
  }

  /** The footer's two counts: unpinned never exceeds total. */
  function FooterCounts(users: seq<User>): (r: (nat, nat))
    ensures r.0 <= r.1 == |users|
    ensures r.0 == |NotPinned(users)|
  {
    (|NotPinned(users)|, |users|)
  }

  /** The first character of each word; an empty word (from a leading,
      trailing or doubled space) adds nothing. */
  function FirstLetters(words: seq<string>): string {
    if words == [] then ""
    else (if words[0] == "" then "" else [words[0][0]]) + FirstLetters(words[1..])
  }

  /** `user.name.split(' ').map(n => n[0]).join('')`: never a space, and
      at most one letter per word. */
  function Initials(name: string): (r: string)
    ensures ' ' !in r
    ensures |r| <= |SplitOn(name, " ")|
  {
    SplitPiecesAvoidSep(name, ' ');
    FirstLettersAvoid(SplitOn(name, " "), ' ');
    FirstLetters(SplitOn(name, " "))
  }

  /** Words that hold no space give initials that hold no space. */
  lemma {:induction false} FirstLettersAvoid(words: seq<string>, c: char)
    requires forall k :: 0 <= k < |words| ==> c !in words[k]
    ensures c !in FirstLetters(words)
    ensures |FirstLetters(words)| <= |words|
  {
    if words != [] {
      FirstLettersAvoid(words[1..], c);
      if words[0] != "" {
        assert words[0][0] in words[0];
      }
    }
  }

  /** Two space-free words give their two first letters. */
  lemma TwoWordInitials(first: string, last: string)
    requires first != "" && last != "" && ' ' !in first && ' ' !in last
    ensures Initials(first + " " + last) == [first[0], last[0]]
  {
    assert first + " " + last == first + [' '] + last;
    SplitTwo(first, last, ' ');
    assert SplitOn(first + " " + last, " ") == [first, last];
    assert [first, last][1..] == [last] && [last][1..] == [];
    assert FirstLetters([last]) == [last[0]];
  }
}
