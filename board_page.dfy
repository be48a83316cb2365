/**
 * The public board page: the active members ordered by `sortOrder`, each
 * card showing the photo when there is one and the member's initials
 * otherwise, or an empty-state message when no one is active.
 */
module BoardPage {
  import opened Wrappers
  import opened Strings
  import opened Schema
  import opened Listing
  import BoardActions

  /** The query: `WHERE isActive = true ORDER BY sortOrder` over a scan of the table. */
  function ActiveMembers(scan: seq<BoardMember>): (shown: seq<BoardMember>)
    ensures SortedBy(shown, BoardSortKey)
    ensures |shown| <= |scan|
    ensures forall m :: m in shown <==> m in scan && m.isActive
  {
    var kept := Filter(scan, IsActiveMember);
    var shown := SortBy(kept, BoardSortKey);
    SortByKeepsRows(kept, BoardSortKey);
    shown
  }

  /** Each active scanned member is shown as many times as it was scanned; no inactive one is shown. */
  lemma ActiveMembersCounts(scan: seq<BoardMember>)
    ensures forall m :: multiset(ActiveMembers(scan))[m] == if m.isActive then multiset(scan)[m] else 0
  {
    FilterCounts(scan, IsActiveMember);
  }

  /** Over a scan of the stored rows, exactly the active stored members are shown, each once. */
  lemma ShownAreTheActiveRows(rows: map<int, BoardMember>, scan: seq<BoardMember>)
    requires IsScanOf(rows, scan)
    ensures forall m :: m in ActiveMembers(scan) <==> m in rows.Values && m.isActive
    ensures forall m :: multiset(ActiveMembers(scan))[m] == if m.isActive && m in rows.Values then 1 else 0
  {
    ActiveMembersCounts(scan);
    DistinctOnce(scan);
  }

  /** The first character of each piece; an empty piece contributes nothing (`undefined` joins as ""). */
  function Heads(pieces: seq<string>): seq<string> {
    if |pieces| == 0 then []
    else [if pieces[0] == "" then "" else [pieces[0][0]]] + Heads(pieces[1..])
  }

  /**
   * `name.split(' ').map(n => n[0]).join('')`: the first character of every
   * word, in order, and nothing else.
   */
  function Initials(name: string): (initials: string)
    ensures initials == WordStarts(name, true)
    ensures ' ' !in initials
    ensures |initials| <= |name|
  {
    InitialsFrom(name);
    WordStartsHaveNoSpace(name, true);
    Concat(Heads(Split(name, ' ')))
  }

  /**
   * The characters that start a word: a non-space character at the very
   * start or right after a space (`afterSpace` says whether the text
   * before `s` ended in a space, or was empty).
   */
  function WordStarts(s: string, afterSpace: bool): string {
    if |s| == 0 then ""
    else (if s[0] != ' ' && afterSpace then [s[0]] else "") + WordStarts(s[1..], s[0] == ' ')
  }

  lemma {:induction false} InitialsFrom(s: string)
    ensures Concat(Heads(Split(s, ' '))) == WordStarts(s, true)
    ensures Concat(Heads(Split(s, ' ')[1..])) == WordStarts(s, false)
    decreases |s|
  {
    if |s| > 0 {
      InitialsFrom(s[1..]);
      var rest := Split(s[1..], ' ');
      if s[0] == ' ' {
        assert Split(s, ' ') == [""] + rest;
        assert (([""] + rest)[1..]) == rest;
      } else {
        var first := [s[0]] + rest[0];
        assert Split(s, ' ') == [first] + rest[1..];
        assert ([first] + rest[1..])[1..] == rest[1..];
        assert Heads([first] + rest[1..]) == [[s[0]]] + Heads(rest[1..]);
      }
    }
  }

  lemma {:induction false} WordStartsHaveNoSpace(s: string, afterSpace: bool)
    ensures ' ' !in WordStarts(s, afterSpace)
    ensures |WordStarts(s, afterSpace)| <= |s|
  {
    if |s| > 0 {
      WordStartsHaveNoSpace(s[1..], s[0] == ' ');
    }
  }

  /** What the card shows at the top: the photo, or a badge with the initials. */
  datatype Avatar = Photo(url: string) | InitialsBadge(text: string)

  /** The photo when the member has a non-empty photo URL, the initials of the name otherwise. */
  function AvatarOf(m: BoardMember): (a: Avatar)
    ensures a.Photo? <==> m.photoUrl.Some? && m.photoUrl.value != ""
    ensures a.Photo? ==> a.url == m.photoUrl.value
    ensures a.InitialsBadge? ==> a.text == WordStarts(m.name, true)
  {
    if BoardActions.HasPhoto(m) then Photo(m.photoUrl.value) else InitialsBadge(Initials(m.name))
  }

  /** For a member the board actions stored, the photo is shown exactly when a photo URL is set. */
  lemma StoredAvatar(m: BoardMember)
    requires BoardActions.StoredMember(m)
    ensures AvatarOf(m).Photo? <==> m.photoUrl.Some?
    ensures AvatarOf(m).Photo? ==> AvatarOf(m).url == m.photoUrl.value
    ensures AvatarOf(m).InitialsBadge? ==> AvatarOf(m).text == WordStarts(m.name, true)
  {
    BoardActions.HasPhotoIsNonNull(m);
  }

  datatype Card = Card(member: BoardMember, avatar: Avatar)

  datatype BoardView = NoMembersYet | MemberCards(cards: seq<Card>)

  /**
   * The page: the empty-state message exactly when no scanned member is
   * active; otherwise one card per active member, in `sortOrder` order, each
   * with that member's avatar.
   */
  function RenderBoard(scan: seq<BoardMember>): (view: BoardView)
    ensures view.NoMembersYet? <==> forall m :: m in scan ==> !m.isActive
    ensures view.MemberCards? ==>
      && |view.cards| == |ActiveMembers(scan)|
      && (forall i :: 0 <= i < |view.cards| ==>
            view.cards[i].member == ActiveMembers(scan)[i] && view.cards[i].avatar == AvatarOf(view.cards[i].member))
      && (forall i, j :: 0 <= i < j < |view.cards| ==> view.cards[i].member.sortOrder <= view.cards[j].member.sortOrder)
  {
    var members := ActiveMembers(scan);
    assert |members| == 0 <==> forall m :: m in scan ==> !m.isActive by {
      NoneActive(scan);
    }
    if |members| == 0 then NoMembersYet
    else
      assert forall i, j :: 0 <= i < j < |members| ==> members[i].sortOrder <= members[j].sortOrder by {
        assert SortedBy(members, BoardSortKey);
      }
      MemberCards(Cards(members))
  }

  /** One card per member, in order. */
  function Cards(members: seq<BoardMember>): (cards: seq<Card>)
    ensures |cards| == |members|
    ensures forall i :: 0 <= i < |cards| ==> cards[i] == Card(members[i], AvatarOf(members[i]))
  {
    seq(|members|, i requires 0 <= i < |members| => Card(members[i], AvatarOf(members[i])))
  }

  /** Nobody is shown exactly when no scanned member is active. */
  lemma NoneActive(scan: seq<BoardMember>)
    ensures |ActiveMembers(scan)| == 0 <==> forall m :: m in scan ==> !m.isActive
  {
    var members := ActiveMembers(scan);
    if |members| > 0 {
      assert members[0] in members;
    }
  }
}
