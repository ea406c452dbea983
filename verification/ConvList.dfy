/** ConvStatsService: the list of possible conversations, the maps that index it, and the events that
    change both. */
module ConvList {
  import opened Lists
  import opened ConvOrder

  datatype Source = FromContact | FromChat

  /** What the contacts service tells about a contact. */
  datatype Contact = Contact(id: int, status: int, name: int, score: real)

  /** What an account tells about one of its chat rooms. */
  datatype RoomInfo = RoomInfo(accountId: int, name: string, status: int, rank: int, score: real)

  /** A possible conversation. Its score changes as messages come and go. */
  class Conv {
    const source: Source
    const accountId: int
    const name: string
    const status: int
    const rank: int
    var contactId: int
    var score: real

    constructor OfContact(c: Contact)
      ensures source == FromContact && contactId == c.id
      ensures Key() == ConvOrder.Key(c.score, c.status, c.name)
    {
      source, accountId, name, status, rank := FromContact, 0, "", c.status, c.name;
      contactId, score := c.id, c.score;
    }

    constructor OfChat(r: RoomInfo)
      ensures source == FromChat && accountId == r.accountId && name == r.name
      ensures Key() == ConvOrder.Key(r.score, r.status, r.rank)
    {
      source, accountId, name, status, rank := FromChat, r.accountId, r.name, r.status, r.rank;
      contactId, score := 0, r.score;
    }

    function Key(): Key
      reads this`score
    {
      ConvOrder.Key(score, status, rank)
    }
  }

  function Keys(convs: seq<Conv>): (keys: seq<Key>)
    reads convs
    ensures |keys| == |convs|
  {
    seq(|convs|, i requires 0 <= i < |convs| reads convs => convs[i].Key())
  }

  lemma KeysAt(convs: seq<Conv>)
    ensures forall i :: 0 <= i < |convs| ==> Keys(convs)[i] == convs[i].Key()
  {
  }

  type Chats = map<int, map<string, Conv>>

  predicate HasChat(chats: Chats, accountId: int, name: string) {
    accountId in chats && name in chats[accountId]
  }

  /** The list holds exactly the conversations the maps know, each once, and every map entry is filed
      under the conversation's own contact or account and name. */
  ghost predicate Agree(convs: seq<Conv>, contacts: map<int, Conv>, chats: Chats)
    reads convs`contactId
  {
    && NoRepeats(convs)
    && (forall id :: id in contacts ==>
          contacts[id] in convs && contacts[id].source == FromContact && contacts[id].contactId == id)
    && (forall a, n :: HasChat(chats, a, n) ==>
          chats[a][n] in convs && chats[a][n].source == FromChat && chats[a][n].accountId == a && chats[a][n].name == n)
    && (forall c :: c in convs && c.source == FromContact ==> c.contactId in contacts && contacts[c.contactId] == c)
    && (forall c :: c in convs && c.source == FromChat ==>
          HasChat(chats, c.accountId, c.name) && chats[c.accountId][c.name] == c)
  }

  // ----- What keeps list and maps in agreement

  lemma AddContactAgrees(convs: seq<Conv>, contacts: map<int, Conv>, chats: Chats, c: Conv, pos: nat)
    requires Agree(convs, contacts, chats) && pos <= |convs|
    requires c !in convs && c.source == FromContact && c.contactId !in contacts
    ensures Agree(InsertAt(convs, pos, c), contacts[c.contactId := c], chats)
  {
    InsertMembers(convs, pos, c);
    hide InsertAt, NoRepeats;
  }

  lemma RemoveContactAgrees(convs: seq<Conv>, contacts: map<int, Conv>, chats: Chats, id: int, k: nat)
    requires Agree(convs, contacts, chats) && k < |convs| && id in contacts && convs[k] == contacts[id]
    ensures Agree(RemoveAt(convs, k), contacts - {id}, chats)
  {
    RemoveMembers(convs, k);
    hide RemoveAt, NoRepeats;
  }

  /** The chats of an account without one name. */
  function WithoutChat(chats: Chats, accountId: int, name: string): Chats
    requires accountId in chats
  {
    chats[accountId := chats[accountId] - {name}]
  }

  lemma RemoveChatAgrees(convs: seq<Conv>, contacts: map<int, Conv>, chats: Chats, a: int, n: string, k: nat)
    requires Agree(convs, contacts, chats) && k < |convs| && HasChat(chats, a, n) && convs[k] == chats[a][n]
    ensures Agree(RemoveAt(convs, k), contacts, WithoutChat(chats, a, n))
  {
    RemoveMembers(convs, k);
    hide RemoveAt, NoRepeats;
    var chats' := WithoutChat(chats, a, n);
    assert forall b, m :: HasChat(chats', b, m) <==> HasChat(chats, b, m) && !(b == a && m == n);
  }

  function WithChat(chats: Chats, accountId: int, name: string, c: Conv): Chats {
    var chatList: map<string, Conv> := if accountId in chats then chats[accountId] else map[];
    chats[accountId := chatList[name := c]]
  }

  lemma AddChatAgrees(convs: seq<Conv>, contacts: map<int, Conv>, chats: Chats, c: Conv, pos: nat)
    requires Agree(convs, contacts, chats) && pos <= |convs|
    requires c !in convs && c.source == FromChat && !HasChat(chats, c.accountId, c.name)
    ensures Agree(InsertAt(convs, pos, c), contacts, WithChat(chats, c.accountId, c.name, c))
  {
    hide HasChat, WithChat, NoRepeats, Conv.Key;
    InsertMembers(convs, pos, c);
    ChatKnown(chats, c.accountId, c.name, c);
    ChatAt(chats, c);
  }

  lemma ChatAt(chats: Chats, c: Conv)
    ensures var chats' := WithChat(chats, c.accountId, c.name, c);
      && HasChat(chats', c.accountId, c.name) && chats'[c.accountId][c.name] == c
      && forall b, m :: HasChat(chats, b, m) && !(b == c.accountId && m == c.name) ==>
           HasChat(chats', b, m) && chats'[b][m] == chats[b][m]
  {
  }

  /** Whether a chat was known and is replaced or not, afterwards it is known. */
  lemma ChatKnown(chats: Chats, a: int, n: string, c: Conv)
    ensures forall b, m :: HasChat(WithChat(chats, a, n, c), b, m) <==> HasChat(chats, b, m) || (b == a && m == n)
    ensures HasChat(chats, a, n) ==>
      forall b, m ::
        HasChat(WithChat(WithoutChat(chats, a, n), a, n, c), b, m) <==> HasChat(chats, b, m) || (b == a && m == n)
  {
  }

  /** The list without the conversation a chat has in it so far. */
  function ConvsWithoutChat(convs: seq<Conv>, chats: Chats, a: int, n: string): seq<Conv> {
    if HasChat(chats, a, n) then Without(convs, chats[a][n]) else convs
  }

  lemma ReplacedChat(chats: Chats, a: int, n: string, c: Conv)
    ensures HasChat(chats, a, n) ==> WithChat(WithoutChat(chats, a, n), a, n, c) == WithChat(chats, a, n, c)
  {
    if HasChat(chats, a, n) {
      assert (chats[a] - {n})[n := c] == chats[a][n := c];
    }
  }

  lemma ChatIsThere(chats: Chats, a: int, n: string)
    requires HasChat(chats, a, n)
    ensures a in chats && n in chats[a]
  {
  }

  lemma ChatForgotten(chats: Chats, a: int, n: string)
    requires HasChat(chats, a, n)
    ensures !HasChat(WithoutChat(chats, a, n), a, n)
  {
  }

  /** The conversations that are not chats of an account, in order. */
  function WithoutAccount(convs: seq<Conv>, accountId: int): (r: seq<Conv>)
    ensures forall c :: c in r ==> c in convs
  {
    if convs == [] then []
    else if convs[0].source == FromChat && convs[0].accountId == accountId then WithoutAccount(convs[1..], accountId)
    else [convs[0]] + WithoutAccount(convs[1..], accountId)
  }

  lemma KeysOfRemoved(convs: seq<Conv>, k: nat)
    requires k < |convs|
    ensures Keys(RemoveAt(convs, k)) == RemoveAt(Keys(convs), k)
  {
  }

  lemma KeysOfInserted(convs: seq<Conv>, p: nat, c: Conv)
    requires p <= |convs|
    ensures Keys(InsertAt(convs, p, c)) == InsertAt(Keys(convs), p, c.Key())
  {
  }

  lemma RemoveInOrder(convs: seq<Conv>, k: nat)
    requires Sorted(Keys(convs)) && k < |convs|
    ensures Sorted(Keys(RemoveAt(convs, k)))
  {
    RemoveKeepsSorted(Keys(convs), k);
    KeysOfRemoved(convs, k);
  }

  lemma InsertInOrder(convs: seq<Conv>, c: Conv)
    requires Sorted(Keys(convs))
    ensures Sorted(Keys(InsertAt(convs, Position(Keys(convs), c.Key()), c)))
  {
    InsertKeepsSorted(Keys(convs), c.Key());
    KeysOfInserted(convs, Position(Keys(convs), c.Key()), c);
  }

  /** The list without the conversation a contact has in it so far. */
  function ConvsWithoutContact(convs: seq<Conv>, contacts: map<int, Conv>, id: int): seq<Conv> {
    if id in contacts then Without(convs, contacts[id]) else convs
  }

  /** A contact has a conversation of its own now, in its place among those there were. */
  ghost predicate Listed(before: seq<Conv>, now: seq<Conv>, were: map<int, Conv>, contacts: map<int, Conv>, c: Contact)
    requires c.id in contacts
    reads before, contacts[c.id]
  {
    var conv := contacts[c.id];
    && conv !in before && conv.Key() == ConvOrder.Key(c.score, c.status, c.name)
    && contacts == were[c.id := conv]
    && now == InsertAt(before, Position(Keys(before), conv.Key()), conv)
  }

  lemma {:induction false} WithoutAccountInOrder(convs: seq<Conv>, a: int)
    requires Sorted(Keys(convs))
    ensures Sorted(Keys(WithoutAccount(convs, a)))
  {
    if convs != [] {
      KeysOfTail(convs);
      WithoutAccountInOrder(convs[1..], a);
      var rest := WithoutAccount(convs[1..], a);
      forall j | 0 <= j < |rest| ensures Compare(convs[0].Key(), rest[j].Key()) <= 0.0 {
        assert rest[j] in rest && rest[j] in convs[1..];
        var k :| 0 <= k < |convs[1..]| && convs[1..][k] == rest[j];
        assert convs[k + 1] == rest[j];
        assert Compare(Keys(convs)[0], Keys(convs)[k + 1]) <= 0.0;
      }
      hide Compare;
      FirstInOrder(convs[0], rest);
    }
  }

  lemma KeysOfTail(convs: seq<Conv>)
    requires convs != []
    ensures Keys(convs[1..]) == Keys(convs)[1..]
    ensures Sorted(Keys(convs)) ==> Sorted(Keys(convs[1..]))
  {
    hide Compare;
    assert Keys(convs[1..]) == Keys(convs)[1..];
  }

  lemma FirstInOrder(c: Conv, rest: seq<Conv>)
    requires Sorted(Keys(rest)) && forall j :: 0 <= j < |rest| ==> Compare(c.Key(), rest[j].Key()) <= 0.0
    ensures Sorted(Keys([c] + rest))
  {
    hide Compare;
    assert Keys([c] + rest) == [c.Key()] + Keys(rest);
  }

  lemma {:induction false} WithoutAccountMembers(convs: seq<Conv>, a: int)
    requires NoRepeats(convs)
    ensures NoRepeats(WithoutAccount(convs, a))
    ensures forall c :: c in WithoutAccount(convs, a) <==> c in convs && !(c.source == FromChat && c.accountId == a)
  {
    if convs != [] {
      WithoutAccountMembers(convs[1..], a);
      assert convs == [convs[0]] + convs[1..];
    }
  }

  lemma RemoveAccountAgrees(convs: seq<Conv>, contacts: map<int, Conv>, chats: Chats, a: int)
    requires Agree(convs, contacts, chats)
    ensures Agree(WithoutAccount(convs, a), contacts, chats - {a})
  {
    hide HasChat, WithoutAccount, NoRepeats, Conv.Key;
    WithoutAccountMembers(convs, a);
    AccountForgotten(chats, a);
  }

  lemma AccountForgotten(chats: Chats, a: int)
    ensures forall b, m :: HasChat(chats - {a}, b, m) <==> HasChat(chats, b, m) && b != a
    ensures forall b, m :: HasChat(chats - {a}, b, m) ==> (chats - {a})[b][m] == chats[b][m]
  {
  }

  function PendingWithout(pending: seq<RoomInfo>, a: int): (r: seq<RoomInfo>)
    ensures forall x :: x in r <==> x in pending && x.accountId != a
  {
    if pending == [] then []
    else if pending[0].accountId == a then PendingWithout(pending[1..], a)
    else [pending[0]] + PendingWithout(pending[1..], a)
  }

  /** The queue without the rooms of an account keeps the order of the others. */
  lemma {:induction false} PendingInOrder(a: seq<RoomInfo>, b: seq<RoomInfo>, account: int)
    ensures PendingWithout(a + b, account) == PendingWithout(a, account) + PendingWithout(b, account)
  {
    if a == [] {
      assert a + b == b;
    } else {
      assert (a + b)[1..] == a[1..] + b;
      PendingInOrder(a[1..], b, account);
    }
  }

  lemma {:induction false} PendingUntouched(a: seq<RoomInfo>, account: int)
    requires forall i :: 0 <= i < |a| ==> a[i].accountId != account
    ensures PendingWithout(a, account) == a
  {
    if a != [] { PendingUntouched(a[1..], account); }
  }

  /** The list without the chats of an account keeps the order of the others. */
  lemma {:induction false} OthersInOrder(a: seq<Conv>, b: seq<Conv>, account: int)
    ensures WithoutAccount(a + b, account) == WithoutAccount(a, account) + WithoutAccount(b, account)
  {
    if a == [] {
      assert a + b == b;
    } else {
      assert (a + b)[1..] == a[1..] + b;
      OthersInOrder(a[1..], b, account);
    }
  }

  lemma {:induction false} OthersUntouched(a: seq<Conv>, account: int)
    requires forall i :: 0 <= i < |a| ==> a[i].source != FromChat || a[i].accountId != account
    ensures WithoutAccount(a, account) == a
  {
    if a != [] { OthersUntouched(a[1..], account); }
  }

  /** Scores as the source computes them: positive with stats, otherwise 0 for a contact and -1 for a
      chat. */
  ghost predicate Scored(c: Conv)
    reads c`score
  {
    c.score > 0.0 || c.score == if c.source == FromContact then 0.0 else -1.0
  }

  /** The documented layout of a sorted list: all conversations with stats, then the contacts without,
      then the chats without. */
  lemma ListInTiers(convs: seq<Conv>) returns (m: nat, n: nat)
    requires Sorted(Keys(convs)) && forall c :: c in convs ==> Scored(c)
    ensures m <= n <= |convs|
    ensures forall i :: 0 <= i < m ==> convs[i].score > 0.0
    ensures forall i :: m <= i < n ==> convs[i].source == FromContact && convs[i].score == 0.0
    ensures forall i :: n <= i < |convs| ==> convs[i].source == FromChat && convs[i].score == -1.0
  {
    hide Sorted, Keys;
    m, n := SortedInTiers(Keys(convs));
    KeysAt(convs);
    forall i | 0 <= i < |convs|
      ensures Scored(convs[i]) && Keys(convs)[i].score == convs[i].score
    {
      assert convs[i] in convs;
    }
  }

  // ----- Repositioning

  /** The list, with what its conversations are compared by. */
  datatype Listing = Listing(convs: seq<Conv>, keys: seq<Key>)

  function List(convs: seq<Conv>): (l: Listing)
    reads convs
    ensures |l.keys| == |l.convs|
  {
    Listing(convs, Keys(convs))
  }

  /** The list with one conversation taken out and put where it belongs now, if it is still there. */
  function Reposition(l: Listing, c: Conv): (r: Listing)
    requires |l.keys| == |l.convs|
    ensures |r.keys| == |r.convs|
  {
    if c !in l.convs then l
    else
      var k := IndexOf(l.convs, c);
      var rest := RemoveAt(l.keys, k);
      var p := Position(rest, l.keys[k]);
      Listing(InsertAt(RemoveAt(l.convs, k), p, c), InsertAt(rest, p, l.keys[k]))
  }

  lemma RepositionOfList(convs: seq<Conv>, c: Conv)
    requires c in convs
    ensures var rest := RemoveAt(convs, IndexOf(convs, c));
      Reposition(List(convs), c) == List(InsertAt(rest, Position(Keys(rest), c.Key()), c))
  {
    var k := IndexOf(convs, c);
    var rest := RemoveAt(convs, k);
    KeysOfRemoved(convs, k);
    KeysOfInserted(rest, Position(Keys(rest), c.Key()), c);
    assert Keys(convs)[k] == c.Key();
    hide Keys, IndexOf, RemoveAt, InsertAt, Position;
  }

  lemma RepositionKeepsBag(l: Listing, c: Conv)
    requires |l.keys| == |l.convs|
    ensures multiset(Reposition(l, c).convs) == multiset(l.convs)
  {
    if c in l.convs {
      var k := IndexOf(l.convs, c);
      RemovedBag(l.convs, k);
      InsertedBag(RemoveAt(l.convs, k), Position(RemoveAt(l.keys, k), l.keys[k]), c);
    }
    hide IndexOf, RemoveAt, InsertAt, Position;
  }

  lemma SameBagSameMembers<T>(a: seq<T>, b: seq<T>)
    requires multiset(a) == multiset(b)
    ensures forall x :: x in a <==> x in b
  {
    forall x ensures x in a <==> x in b {
      assert x in a <==> x in multiset(a);
    }
  }

  lemma {:induction false} NoRepeatsByBag<T>(s: seq<T>)
    ensures NoRepeats(s) <==> forall x :: x in s ==> multiset(s)[x] == 1
  {
    if s != [] {
      NoRepeatsByBag(s[1..]);
      assert s == [s[0]] + s[1..];
      if NoRepeats(s) {
        assert s[0] !in s[1..];
        forall x | x in s ensures multiset(s)[x] == 1 {
          assert x in s[1..] || x == s[0];
        }
      } else {
        var i, j :| 0 <= i < j < |s| && s[i] == s[j];
        if i > 0 {
          assert s[1..][i - 1] == s[1..][j - 1];
          var x :| x in s[1..] && multiset(s[1..])[x] != 1;
          assert x in s;
        } else {
          assert s[1..][j - 1] == s[0];
          assert multiset(s)[s[0]] == 1 + multiset(s[1..])[s[0]];
        }
      }
    }
  }

  /** The maps do not know the order of the list. */
  lemma AgreeIsUnordered(a: seq<Conv>, b: seq<Conv>, contacts: map<int, Conv>, chats: Chats)
    requires Agree(a, contacts, chats) && multiset(a) == multiset(b)
    ensures Agree(b, contacts, chats)
  {
    SameBagSameMembers(a, b);
    NoRepeatsByBag(a);
    NoRepeatsByBag(b);
    hide NoRepeats;
  }

  lemma AbsentStays(convs: seq<Conv>, c: Conv)
    requires c !in convs
    ensures Reposition(List(convs), c) == List(convs)
  {
  }

  lemma MovedInside<T>(s: seq<T>, k: nat, p: nat)
    requires k < |s| && p < |s|
    ensures var target := InsertAt(RemoveAt(s, k), p, s[k]); forall i :: 0 <= i < |target| ==> target[i] in s
  {
  }

  lemma TargetIsRepositioned(convs: seq<Conv>, c: Conv, contacts: map<int, Conv>, chats: Chats)
    requires Agree(convs, contacts, chats) && c in convs
    ensures var rest := RemoveAt(convs, IndexOf(convs, c));
      var target := InsertAt(rest, Position(Keys(rest), c.Key()), c);
      && Reposition(List(convs), c) == List(target)
      && multiset(target) == multiset(convs)
      && Agree(target, contacts, chats)
      && forall i :: 0 <= i < |target| ==> target[i] in convs
  {
    RepositionOfList(convs, c);
    RepositionKeepsBag(List(convs), c);
    hide Agree, Reposition, RemoveAt, InsertAt, IndexOf, Keys, Position;
    var rest := RemoveAt(convs, IndexOf(convs, c));
    var target := InsertAt(rest, Position(Keys(rest), c.Key()), c);
    AgreeIsUnordered(convs, target, contacts, chats);
    MovedInside(convs, IndexOf(convs, c), Position(Keys(rest), c.Key()));
  }

  function RepositionAll(l: Listing, updated: seq<Conv>): (r: Listing)
    requires |l.keys| == |l.convs|
    ensures |r.keys| == |r.convs|
    decreases |updated|
  {
    if updated == [] then l else RepositionAll(Reposition(l, updated[0]), updated[1..])
  }

  lemma RepositionFirst(l: Listing, updated: seq<Conv>)
    requires |l.keys| == |l.convs| && updated != []
    ensures RepositionAll(l, updated) == RepositionAll(Reposition(l, updated[0]), updated[1..])
  {
  }

  lemma RepositionNothing(l: Listing, updated: seq<Conv>)
    requires |l.keys| == |l.convs| && updated == []
    ensures RepositionAll(l, updated) == l
  {
  }

  /** Every other conversation is in order. */
  predicate InOrderBut(l: Listing, c: Conv)
    requires |l.keys| == |l.convs| && c in l.convs
  {
    Sorted(RemoveAt(l.keys, IndexOf(l.convs, c)))
  }

  /** Repositioning the only changed conversation sorts the list exactly when all the others are in order. */
  lemma RepositionSorts(l: Listing, c: Conv)
    requires |l.keys| == |l.convs| && c in l.convs
    ensures Sorted(RepositionAll(l, [c]).keys) <==> InOrderBut(l, c)
  {
    RepositionSortsExactly(l.keys, IndexOf(l.convs, c));
    hide Sorted, Position, InsertAt, RemoveAt, IndexOf;
    assert RepositionAll(l, [c]) == Reposition(l, c);
  }

  lemma RepositionOneSorts(l: Listing, c: Conv)
    requires |l.keys| == |l.convs|
    ensures Sorted(Reposition(l, c).keys) <==> if c in l.convs then InOrderBut(l, c) else Sorted(l.keys)
    ensures Sorted(l.keys) && c in l.convs ==> InOrderBut(l, c)
  {
    if c in l.convs {
      var k := IndexOf(l.convs, c);
      RepositionSortsExactly(l.keys, k);
      if Sorted(l.keys) { RemoveKeepsSorted(l.keys, k); }
    }
    hide Sorted, Position, InsertAt, RemoveAt, IndexOf;
  }

  /** All conversations but this one are in order. */
  predicate Settles(l: Listing, c: Conv)
    requires |l.keys| == |l.convs|
  {
    c in l.convs && InOrderBut(l, c)
  }

  /** Repositioning several conversations sorts the list exactly when it was sorted already or, at some
      turn, all but the conversation of that turn are in order. */
  lemma {:induction false} RepositionAllSortsExactly(l: Listing, updated: seq<Conv>)
    requires |l.keys| == |l.convs|
    ensures Sorted(RepositionAll(l, updated).keys) <==>
      Sorted(l.keys) || exists i :: 0 <= i < |updated| && Settles(RepositionAll(l, updated[..i]), updated[i])
    decreases |updated|
  {
    hide Sorted, Reposition, InOrderBut;
    if updated != [] {
      var next, rest := Reposition(l, updated[0]), updated[1..];
      RepositionOneSorts(l, updated[0]);
      RepositionAllSortsExactly(next, rest);
      assert RepositionAll(l, updated[..0]) == l;
      forall i | 0 <= i < |rest|
        ensures RepositionAll(next, rest[..i]) == RepositionAll(l, updated[..i + 1]) && rest[i] == updated[i + 1]
      {
        assert updated[..i + 1][1..] == rest[..i];
      }
      if i :| 0 <= i < |updated| && Settles(RepositionAll(l, updated[..i]), updated[i]) && i > 0 {
        assert Settles(RepositionAll(next, rest[..i - 1]), rest[i - 1]);
      }
      if i :| 0 <= i < |rest| && Settles(RepositionAll(next, rest[..i]), rest[i]) {
        assert Settles(RepositionAll(l, updated[..i + 1]), updated[i + 1]);
      }
    }
  }

  /** In particular when all but the conversation repositioned first are in order. */
  lemma RepositionAllSorts(l: Listing, updated: seq<Conv>)
    requires |l.keys| == |l.convs| && updated != [] && updated[0] in l.convs && InOrderBut(l, updated[0])
    ensures Sorted(RepositionAll(l, updated).keys)
  {
    RepositionAllSortsExactly(l, updated);
    hide Sorted, InOrderBut;
    assert RepositionAll(l, updated[..0]) == l;
    assert Settles(RepositionAll(l, updated[..0]), updated[0]);
  }

  lemma BeforeNewScore(convs: seq<Conv>, contacts: map<int, Conv>, chats: Chats, k: nat)
    requires Agree(convs, contacts, chats) && k < |convs|
    ensures forall i :: 0 <= i < |convs| && i != k ==> convs[i] != convs[k] && convs[i].Key() == Keys(convs)[i]
    ensures Sorted(Keys(convs)) ==> Sorted(RemoveAt(Keys(convs), k))
  {
    if Sorted(Keys(convs)) { RemoveKeepsSorted(Keys(convs), k); }
    hide Sorted, RemoveAt;
  }

  lemma OthersKeepTheirKeys(convs: seq<Conv>, keys: seq<Key>, k: nat)
    requires k < |convs| == |keys| && k == IndexOf(convs, convs[k])
    requires forall i :: 0 <= i < |convs| && i != k ==> convs[i].Key() == keys[i]
    ensures RemoveAt(List(convs).keys, k) == RemoveAt(keys, k)
    ensures Sorted(RemoveAt(keys, k)) ==> InOrderBut(List(convs), convs[k])
  {
    hide Sorted, IndexOf;
  }

  class ConvStatsService {
    var convs: seq<Conv>
    var contactsById: map<int, Conv>
    var chatsByAccountIdAndName: Chats
    var pendingChats: seq<RoomInfo>
    /** In the order in which they were added. */
    var convsWithUpdatedStats: seq<Conv>

    ghost predicate Valid()
      reads this, convs
    {
      Agree(convs, contactsById, chatsByAccountIdAndName)
    }

    ghost predicate InOrder()
      reads this, convs
    {
      Sorted(Keys(convs))
    }

    constructor ()
      ensures Valid() && InOrder() && convs == []
    {
      convs, contactsById, chatsByAccountIdAndName := [], map[], map[];
      pendingChats, convsWithUpdatedStats := [], [];
    }

    /** The position of a conversation, by binary search. */
    static method GetPositionToInsert(conv: Conv, list: seq<Conv>) returns (end: nat)
      ensures end == Position(Keys(list), conv.Key())
    {
      hide Compare, Keys, Conv.Key;
      KeysAt(list);
      end := |list|;
      if end == 0 || Compare(conv.Key(), list[end - 1].Key()) >= 0.0 {
        return;
      }
      var start := 0;
      while start < end
        invariant 0 <= start <= end <= |list|
        invariant Search(Keys(list), conv.Key(), start, end) == Search(Keys(list), conv.Key(), 0, |list|)
      {
        var middle := (start + end) / 2;
        if Compare(conv.Key(), list[middle].Key()) < 0.0 {
          end := middle;
        } else {
          start := middle + 1;
        }
      }
    }

    method AddContact(contact: Contact)
      requires Valid()
      modifies this`convs, this`contactsById
      ensures Valid() && (old(InOrder()) ==> InOrder())
      ensures contactsById.Keys == old(contactsById.Keys) + {contact.id}
      ensures if contact.id in old(contactsById) then convs == old(convs) && contactsById == old(contactsById)
        else var c := contactsById[contact.id];
          && fresh(c) && c.Key() == Key(contact.score, contact.status, contact.name)
          && convs == InsertAt(old(convs), Position(Keys(old(convs)), c.Key()), c)
          && contactsById == old(contactsById)[contact.id := c]
    {
      hide Agree, Sorted, Keys, Position, NoRepeats, Conv.Key;
      if contact.id in contactsById {
        return;
      }
      var possibleConv := new Conv.OfContact(contact);
      var pos := GetPositionToInsert(possibleConv, convs);
      if InOrder() { InsertInOrder(convs, possibleConv); }
      AddContactAgrees(convs, contactsById, chatsByAccountIdAndName, possibleConv, pos);
      convs := InsertAt(convs, pos, possibleConv);
      contactsById := contactsById[contact.id := possibleConv];
    }

    method RemoveContact(id: int)
      requires Valid()
      modifies this`convs, this`contactsById
      ensures Valid() && (old(InOrder()) ==> InOrder())
      ensures contactsById == old(contactsById) - {id}
      ensures if id !in old(contactsById) then convs == old(convs)
        else (var c := old(contactsById)[id]; c in old(convs) && convs == RemoveAt(old(convs), IndexOf(old(convs), c)))
    {
      if id !in contactsById {
        return;
      }
      var k := IndexOf(convs, contactsById[id]);
      if InOrder() { RemoveInOrder(convs, k); }
      RemoveContactAgrees(convs, contactsById, chatsByAccountIdAndName, id, k);
      hide Agree, Sorted, Keys, IndexOf, NoRepeats;
      convs := RemoveAt(convs, k);
      contactsById := contactsById - {id};
    }

    /** The contact of a conversation has a new number. The source throws when the new number is the old
        one. The maps still agree with the list exactly when the new number was free. */
    method ContactNoLongerDummy(id: int, oldId: int) returns (ok: bool)
      requires Valid() && oldId in contactsById
      modifies this`contactsById, contactsById[oldId]
      ensures Valid() <==> id !in old(contactsById)
      ensures ok <==> id != oldId
      ensures ok ==> contactsById == old(contactsById)[id := old(contactsById)[oldId]] - {oldId}
      ensures convs == old(convs) && (old(InOrder()) ==> InOrder())
    {
      ghost var was, keys := contactsById, Keys(convs);
      contactsById := contactsById[id := contactsById[oldId]];
      contactsById := contactsById - {oldId};
      ok := id in contactsById;
      if ok {
        contactsById[id].contactId := id;
      }
      if id in was {
        assert was[id] in convs;
      }
      assert Keys(convs) == keys;
    }

    /** The loop body of `_addPendingChats`: the last chat of the queue, added or refreshed. */
    method AddPendingChat()
      requires Valid() && pendingChats != []
      modifies this`convs, this`chatsByAccountIdAndName, this`pendingChats
      ensures Valid() && (old(InOrder()) ==> InOrder())
      ensures pendingChats == old(pendingChats)[..|old(pendingChats)| - 1]
      ensures var chat := old(pendingChats)[|old(pendingChats)| - 1];
        && (forall a, n :: HasChat(chatsByAccountIdAndName, a, n) <==>
              old(HasChat(chatsByAccountIdAndName, a, n)) || (a == chat.accountId && n == chat.name))
        && HasChat(chatsByAccountIdAndName, chat.accountId, chat.name)
        && var c := chatsByAccountIdAndName[chat.accountId][chat.name];
           fresh(c) && c.Key() == Key(chat.score, chat.status, chat.rank)
           && chatsByAccountIdAndName == WithChat(old(chatsByAccountIdAndName), chat.accountId, chat.name, c)
           && var rest := ConvsWithoutChat(old(convs), old(chatsByAccountIdAndName), chat.accountId, chat.name);
              convs == InsertAt(rest, Position(Keys(rest), c.Key()), c)
    {
      hide Agree, Sorted, Keys, HasChat, WithChat, WithoutChat, Position, Conv.Key;
      var chat := pendingChats[|pendingChats| - 1];
      pendingChats := pendingChats[..|pendingChats| - 1];
      ghost var chats := chatsByAccountIdAndName;
      if HasChat(chatsByAccountIdAndName, chat.accountId, chat.name) {
        ChatForgotten(chats, chat.accountId, chat.name);
        ChatIsThere(chats, chat.accountId, chat.name);
        RemoveChat(chat.accountId, chat.name);
      }
      ghost var rest := convs;
      InsertChat(chat);
      ChatIsThere(chatsByAccountIdAndName, chat.accountId, chat.name);
      ghost var c := chatsByAccountIdAndName[chat.accountId][chat.name];
      ChatKnown(chats, chat.accountId, chat.name, c);
      ReplacedChat(chats, chat.accountId, chat.name, c);
    }

    /** Takes a chat out of the list; its map entry is about to be replaced. */
    method RemoveChat(a: int, n: string)
      requires Valid() && HasChat(chatsByAccountIdAndName, a, n)
      modifies this`convs, this`chatsByAccountIdAndName
      ensures Valid() && (old(InOrder()) ==> InOrder())
      ensures chatsByAccountIdAndName == WithoutChat(old(chatsByAccountIdAndName), a, n)
      ensures convs == ConvsWithoutChat(old(convs), old(chatsByAccountIdAndName), a, n)
      ensures forall c :: c in convs ==> c in old(convs)
    {
      var k := IndexOf(convs, chatsByAccountIdAndName[a][n]);
      if InOrder() { RemoveInOrder(convs, k); }
      RemoveChatAgrees(convs, contactsById, chatsByAccountIdAndName, a, n, k);
      RemoveMembers(convs, k);
      hide Agree, Sorted, Keys, IndexOf, NoRepeats;
      convs := RemoveAt(convs, k);
      chatsByAccountIdAndName := chatsByAccountIdAndName[a := chatsByAccountIdAndName[a] - {n}];
    }

    method InsertChat(chat: RoomInfo)
      requires Valid() && !HasChat(chatsByAccountIdAndName, chat.accountId, chat.name)
      modifies this`convs, this`chatsByAccountIdAndName
      ensures Valid() && (old(InOrder()) ==> InOrder())
      ensures HasChat(chatsByAccountIdAndName, chat.accountId, chat.name)
      ensures var c := chatsByAccountIdAndName[chat.accountId][chat.name];
        && fresh(c) && c.Key() == Key(chat.score, chat.status, chat.rank)
        && chatsByAccountIdAndName == WithChat(old(chatsByAccountIdAndName), chat.accountId, chat.name, c)
        && convs == InsertAt(old(convs), Position(Keys(old(convs)), c.Key()), c)
    {
      hide Agree, Sorted, Keys, Position, NoRepeats, Conv.Key;
      var chatList: map<string, Conv> := map[];
      if chat.accountId in chatsByAccountIdAndName {
        chatList := chatsByAccountIdAndName[chat.accountId];
      }
      var possibleConv := new Conv.OfChat(chat);
      var pos := GetPositionToInsert(possibleConv, convs);
      if InOrder() { InsertInOrder(convs, possibleConv); }
      AddChatAgrees(convs, contactsById, chatsByAccountIdAndName, possibleConv, pos);
      convs := InsertAt(convs, pos, possibleConv);
      chatsByAccountIdAndName := chatsByAccountIdAndName[chat.accountId := chatList[chat.name := possibleConv]];
    }

    /** Adds chats from the end of the queue for as long as the clock allows, at least one. */
    method AddPendingChats()
      requires Valid()
      modifies this`convs, this`chatsByAccountIdAndName, this`pendingChats
      ensures Valid() && (old(InOrder()) ==> InOrder())
      ensures pendingChats <= old(pendingChats) && (old(pendingChats) != [] ==> pendingChats != old(pendingChats))
      ensures forall a, n :: HasChat(chatsByAccountIdAndName, a, n) <==>
        old(HasChat(chatsByAccountIdAndName, a, n)) || Names(old(pendingChats)[|pendingChats|..], a, n)
      ensures forall a, n :: !Names(old(pendingChats)[|pendingChats|..], a, n) ==>
        SameChat(old(chatsByAccountIdAndName), chatsByAccountIdAndName, a, n)
    {
      AllSame(chatsByAccountIdAndName);
      hide *;
      var time := true;
      NoneNamed();
      assert pendingChats[|pendingChats|..] == [];
      while time && pendingChats != []
        invariant Valid() && (old(InOrder()) ==> InOrder())
        invariant pendingChats <= old(pendingChats)
        invariant time || pendingChats != old(pendingChats)
        invariant forall a, n :: HasChat(chatsByAccountIdAndName, a, n) <==>
          old(HasChat(chatsByAccountIdAndName, a, n)) || Names(old(pendingChats)[|pendingChats|..], a, n)
        invariant forall a, n :: !Names(old(pendingChats)[|pendingChats|..], a, n) ==>
          SameChat(old(chatsByAccountIdAndName), chatsByAccountIdAndName, a, n)
        decreases |pendingChats|
      {
        ghost var before, chats := pendingChats, chatsByAccountIdAndName;
        AddPendingChat();
        OneMoreNamed(old(pendingChats), |before|);
        KeptOneMore(old(chatsByAccountIdAndName), chats, chatsByAccountIdAndName, old(pendingChats), |before|);
        time := *;
      }
    }

    /** Forgets the chats of an account. Chats still in the queue are dropped only if the account already
        has some. */
    method RemoveChatsForAccount(accountId: int)
      requires Valid()
      modifies this`convs, this`chatsByAccountIdAndName, this`pendingChats
      ensures Valid() && (old(InOrder()) ==> InOrder())
      ensures chatsByAccountIdAndName == old(chatsByAccountIdAndName) - {accountId}
      ensures var known := accountId in old(chatsByAccountIdAndName);
        && convs == (if known then WithoutAccount(old(convs), accountId) else old(convs))
        && pendingChats == (if known then PendingWithout(old(pendingChats), accountId) else old(pendingChats))
    {
      hide Agree, Sorted, Keys, WithoutAccount, PendingWithout, Conv.Key;
      if accountId !in chatsByAccountIdAndName {
        return;
      }
      if InOrder() { WithoutAccountInOrder(convs, accountId); }
      RemoveAccountAgrees(convs, contactsById, chatsByAccountIdAndName, accountId);
      convs := WithoutAccount(convs, accountId);
      chatsByAccountIdAndName := chatsByAccountIdAndName - {accountId};
      pendingChats := PendingWithout(pendingChats, accountId);
    }

    /** A message has changed the score of a conversation. */
    method NewText(conv: Conv, score: real)
      requires Valid()
      modifies this`convsWithUpdatedStats, conv`score
      ensures Valid() && conv.score == score && convs == old(convs)
      ensures convsWithUpdatedStats
        == old(convsWithUpdatedStats) + if conv in old(convsWithUpdatedStats) then [] else [conv]
      ensures old(InOrder()) ==> if conv in convs then InOrderBut(List(convs), conv) else InOrder()
    {
      hide Agree, Sorted, Keys, List, InOrderBut, IndexOf, RemoveAt, Conv.Key;
      ghost var k, keys := IndexOf(convs, conv), Keys(convs);
      if conv in convs { BeforeNewScore(convs, contactsById, chatsByAccountIdAndName, k); }
      conv.score := score;
      if conv in convs { OthersKeepTheirKeys(convs, keys, k); }
      if conv !in convsWithUpdatedStats {
        convsWithUpdatedStats := convsWithUpdatedStats + [conv];
      }
    }

    /** Puts every conversation with a new score where it belongs now. */
    method RepositionConvsWithUpdatedStats()
      requires Valid()
      modifies this`convs, this`convsWithUpdatedStats
      ensures Valid() && multiset(convs) == multiset(old(convs)) && convsWithUpdatedStats == []
      ensures List(convs) == RepositionAll(old(List(convs)), old(convsWithUpdatedStats))
    {
      var updated := convsWithUpdatedStats;
      ghost var was := List(convs);
      assert updated[0..] == updated;
      hide *;
      for i := 0 to |updated|
        invariant Valid() && multiset(convs) == multiset(was.convs)
        invariant RepositionAll(List(convs), updated[i..]) == RepositionAll(was, updated)
      {
        RepositionFirst(List(convs), updated[i..]);
        MoveToPosition(updated[i]);
        assert updated[i..][0] == updated[i] && updated[i..][1..] == updated[i + 1..];
      }
      RepositionNothing(List(convs), updated[|updated|..]);
      convsWithUpdatedStats := [];
    }

    /** The loop body of `_repositionConvsWithUpdatedStats`. */
    method MoveToPosition(conv: Conv)
      requires Valid()
      modifies this`convs
      ensures Valid() && List(convs) == Reposition(old(List(convs)), conv) && multiset(convs) == multiset(old(convs))
    {
      hide Agree, Keys, Position, IndexOf, RemoveAt, InsertAt, NoRepeats, Sorted, Reposition, List, Conv.Key;
      var currentPos := IndexOf(convs, conv);
      if currentPos == -1 {
        AbsentStays(convs, conv);
        return;
      }
      ghost var rest := RemoveAt(convs, currentPos);
      ghost var target := InsertAt(rest, Position(Keys(rest), conv.Key()), conv);
      TargetIsRepositioned(convs, conv, contactsById, chatsByAccountIdAndName);
      convs := RemoveAt(convs, currentPos);
      var newPos := GetPositionToInsert(conv, convs);
      convs := InsertAt(convs, newPos, conv);
      assert convs == target;
    }

    /** The arms of `observe` for contacts and accounts. */
    method Observe(event: Event)
      requires Valid()
      modifies this`convs, this`contactsById, this`chatsByAccountIdAndName, this`pendingChats
      ensures Valid() && (old(InOrder()) ==> InOrder())
      ensures !event.AccountDisconnected? ==>
        chatsByAccountIdAndName == old(chatsByAccountIdAndName) && pendingChats == old(pendingChats)
      ensures match event
        case ContactAdded(c) =>
          if c.id in old(contactsById) then contactsById == old(contactsById) && convs == old(convs)
          else c.id in contactsById && Listed(old(convs), convs, old(contactsById), contactsById, c)
        case ContactRemoved(id) =>
          && contactsById == old(contactsById) - {id}
          && convs == ConvsWithoutContact(old(convs), old(contactsById), id)
        case ContactChanged(c) =>
          && c.id in contactsById
          && Listed(ConvsWithoutContact(old(convs), old(contactsById), c.id), convs, old(contactsById), contactsById, c)
        case AccountDisconnected(id) =>
          && contactsById == old(contactsById)
          && chatsByAccountIdAndName == old(chatsByAccountIdAndName) - {id}
          && var known := id in old(chatsByAccountIdAndName);
             convs == (if known then WithoutAccount(old(convs), id) else old(convs))
             && pendingChats == (if known then PendingWithout(old(pendingChats), id) else old(pendingChats))
    {
      hide Agree, Sorted, Keys, Position, InsertAt, RemoveAt, IndexOf, Conv.Key;
      match event
      case ContactAdded(c) => AddContact(c);
      case ContactRemoved(id) => RemoveContact(id);
      case ContactChanged(c) =>
        RemoveContact(c.id);
        AddContact(c);
      case AccountDisconnected(id) => RemoveChatsForAccount(id);
    }
  }

  datatype Event = ContactAdded(contact: Contact) | ContactRemoved(id: int)
                 | ContactChanged(contact: Contact) | AccountDisconnected(id: int)

  /** Some room of the list has this account and name. */
  predicate Names(rooms: seq<RoomInfo>, a: int, n: string) {
    exists r :: r in rooms && r.accountId == a && r.name == n
  }

  /** A chat known before has the same conversation now. */
  predicate SameChat(before: Chats, now: Chats, a: int, n: string) {
    HasChat(before, a, n) ==> HasChat(now, a, n) && now[a][n] == before[a][n]
  }

  lemma AllSame(chats: Chats)
    ensures forall a, n :: SameChat(chats, chats, a, n)
  {
  }

  lemma KeptOneMore(start: Chats, before: Chats, now: Chats, rooms: seq<RoomInfo>, k: nat)
    requires 0 < k <= |rooms|
    requires var r := rooms[k - 1];
      HasChat(now, r.accountId, r.name) && now == WithChat(before, r.accountId, r.name, now[r.accountId][r.name])
    requires forall a, n :: !Names(rooms[k..], a, n) ==> SameChat(start, before, a, n)
    ensures forall a, n :: !Names(rooms[k - 1..], a, n) ==> SameChat(start, now, a, n)
  {
    OneMoreNamed(rooms, k);
    hide Names;
    var r := rooms[k - 1];
    forall a, n | !Names(rooms[k - 1..], a, n)
      ensures SameChat(start, now, a, n)
    {
      assert SameChat(start, before, a, n);
    }
  }

  lemma NoneNamed()
    ensures forall a, n :: !Names([], a, n)
  {
  }

  lemma OneMoreNamed(rooms: seq<RoomInfo>, k: nat)
    requires 0 < k <= |rooms|
    ensures forall a, n :: Names(rooms[k - 1..], a, n) <==>
      Names(rooms[k..], a, n) || (a == rooms[k - 1].accountId && n == rooms[k - 1].name)
  {
    var more := rooms[k - 1..];
    assert more == [rooms[k - 1]] + rooms[k..];
    forall a, n
      ensures Names(more, a, n) <==> Names(rooms[k..], a, n) || (a == rooms[k - 1].accountId && n == rooms[k - 1].name)
    {
      if Names(more, a, n) {
        var r :| r in more && r.accountId == a && r.name == n;
        assert r == rooms[k - 1] || r in rooms[k..];
      }
      if Names(rooms[k..], a, n) {
        var r :| r in rooms[k..] && r.accountId == a && r.name == n;
        assert r in more;
      }
      assert rooms[k - 1] in more;
    }
  }
}
