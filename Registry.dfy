/**
 * The records kept by the signaling server's user manager: user ids, the four
 * call statuses, the per-user record, the public view of a record, the avatar
 * palette and the roster a client is sent.
 */
module Registry {

  datatype Option<+T> = None | Some(value: T)

  /** A user id. The server generates one per connection; here any string. */
  type Id = string

  /** The call statuses the server stores, under the server's own names. */
  datatype Status = Disponible | Llamando | RecibiendoLlamada | EnLlamada

  /** The websocket a record refers to. The registry never looks inside it. */
  datatype Socket = Socket(handle: nat)

  /** One entry of the `users` dictionary (the connection timestamp is not modelled). */
  datatype User = User(
    ws: Socket,
    username: string,
    status: Status,
    inCallWith: Option<Id>,
    avatarColor: string)

  /** What `get_user_info` hands out: the record without its websocket. */
  datatype UserInfo = UserInfo(
    id: Id,
    username: string,
    status: Status,
    avatarColor: string,
    inCallWith: Option<Id>)

  /** Python truthiness of an id: only the empty string is false. */
  predicate Truthy(id: Id) {
    id != ""
  }

  /** The ten avatar colours, in the server's order. */
  const Palette: seq<string> := [
    "#0088cc", "#00a884", "#ff6b6b", "#51cf66", "#ffd43b",
    "#20c997", "#be4bdb", "#f76707", "#339af0", "#ff8787"
  ]

  /** The sum of the code points of `s` (Python's `sum(ord(c) for c in s)`). */
  function CharSum(s: string): nat {
    if s == [] then 0 else (s[0] as int) + CharSum(s[1..])
  }

  /** `generate_avatar_color`: the palette entry selected by the code-point sum modulo 10. */
  function AvatarColor(id: Id): (c: string)
    ensures c in Palette
    ensures c == Palette[CharSum(id) % 10]
  {
    Palette[CharSum(id) % |Palette|]
  }

  lemma {:induction false} CharSumConcat(a: string, b: string)
    ensures CharSum(a + b) == CharSum(a) + CharSum(b)
  {
    if a == [] {
      assert a + b == b;
    } else {
      assert (a + b)[1..] == a[1..] + b;
      CharSumConcat(a[1..], b);
    }
  }

  /** Taking one character out of a string takes its code point out of the sum. */
  lemma CharSumRemove(b: string, k: nat)
    requires k < |b|
    ensures CharSum(b) == (b[k] as int) + CharSum(b[..k] + b[k + 1..])
  {
    assert b == b[..k] + ([b[k]] + b[k + 1..]);
    CharSumConcat(b[..k], [b[k]] + b[k + 1..]);
    assert ([b[k]] + b[k + 1..])[1..] == b[k + 1..];
    CharSumConcat(b[..k], b[k + 1..]);
  }

  lemma MultisetRemove(b: string, k: nat)
    requires k < |b|
    ensures multiset(b[..k] + b[k + 1..]) == multiset(b) - multiset{b[k]}
  {
    assert b == b[..k] + [b[k]] + b[k + 1..];
  }

  /** The code-point sum does not depend on the order of the characters. */
  lemma {:induction false} CharSumPermutation(a: string, b: string)
    requires multiset(a) == multiset(b)
    ensures CharSum(a) == CharSum(b)
  {
    if a == [] {
      assert |b| == |multiset(b)|;
    } else {
      assert a[0] in multiset(b);
      var k :| 0 <= k < |b| && b[k] == a[0];
      MultisetRemove(a, 0);
      MultisetRemove(b, k);
      assert a[..0] + a[1..] == a[1..];
      CharSumPermutation(a[1..], b[..k] + b[k + 1..]);
      CharSumRemove(b, k);
    }
  }

  /**
   * The colour is a function of the id alone, and ids made of the same
   * characters in another order share a colour.
   */
  lemma AvatarColorIgnoresOrder(a: Id, b: Id)
    requires multiset(a) == multiset(b)
    ensures AvatarColor(a) == AvatarColor(b)
  {
    CharSumPermutation(a, b);
  }

  /** The public view of the record stored under `id`. */
  function InfoOf(id: Id, u: User): (r: UserInfo)
    ensures r.id == id
    ensures r.username == u.username && r.status == u.status
    ensures r.avatarColor == u.avatarColor && r.inCallWith == u.inCallWith
  {
    UserInfo(id, u.username, u.status, u.avatarColor, u.inCallWith)
  }

  /** `get_user_info`: the public view of a registered user, None for an unknown id. */
  function UserInfoOf(users: map<Id, User>, id: Id): (r: Option<UserInfo>)
    ensures r.Some? <==> id in users
    ensures r.Some? ==> r.value == InfoOf(id, users[id])
  {
    if id in users then Some(InfoOf(id, users[id])) else None
  }

  /** The ids a roster lists: online, registered, and not the excluded id. */
  function RosterIds(online: set<Id>, users: map<Id, User>, exclude: Option<Id>): set<Id> {
    set x | x in online && x in users && Some(x) != exclude
  }

  /** The ids of the entries of a roster. */
  function IdsOf(infos: seq<UserInfo>): set<Id> {
    set i | 0 <= i < |infos| :: infos[i].id
  }
}
