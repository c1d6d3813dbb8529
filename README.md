# User registry and call state machine of a WebRTC signaling server

This project models the in-memory user manager of a small WebRTC signaling
server (class `UserManager` in `server.py`). The manager keeps two pieces of
shared state:

- `users`: a dictionary from user id to a record with the websocket, the
  username, the call status, the partner (`in_call_with`) and the avatar colour.
- `online_users`: a set of ids.

Each call transition is a small in-place update of these two structures. The
status values keep the server's own names: `Disponible`, `Llamando` (calling),
`RecibiendoLlamada` (being called) and `EnLlamada` (in a call).

The project has four modules:

- `Registry` (Registry.dfy) holds the record types, the ten-colour palette, the
  avatar-colour hash, the public view of a record and the roster's id set.
- `CallState` (CallState.dfy) states each operation as a function of the
  `users` dictionary. Each transition function (`Register`, `SetStatus`,
  `Unregister`, `Initiate`, `Accept`, `Release`) has a contract that says what
  the operation returns, which records change and how, and that nothing else
  changes. The guard `CanCall` states only the direction "allowed implies
  both registered, distinct and target disponible"; `Pairing.CanCallExactly`
  gives the full condition. The partner lookup `LivePartner` has no contract
  of its own; the transitions' contracts and `Pairing.PartnerIsLive` state
  what it finds.
- `Pairing` (Pairing.dfy) defines the partner-symmetry invariant `Paired`. It
  proves which operations keep the invariant, and under which conditions. It
  also gives concrete counterexamples where the code as written loses it.
- `Server` (UserManager.dfy) holds class `UserManager`. Its fields are
  `users`, `onlineUsers` and `order`, and its methods update them in place.
  `Valid()` says that `onlineUsers` is exactly the set of registered ids and
  that `order` lists each id once. Each mutating method is proved to leave the
  state that the matching `CallState` function computes. The two loops
  (`get_online_users` and `find_user_by_username`) are proved against their
  specifications with loop invariants.

Some modelling decisions:

- Python dictionaries iterate in insertion order, and `find_user_by_username`
  returns the first match in that order. So the class keeps `order`, the
  dictionary's key order. Re-adding a present key keeps its place, and
  deleting a key drops it.
- Iterating `online_users` visits the set in an unspecified order. The model
  picks elements with `:|`, so the roster's order is left open.
- The checks written `if partner and partner in self.users` use Python
  truthiness. They are modelled by `Truthy` (an id is false only when it is
  the empty string) in `CallState.LivePartner`.
- `can_call_user` checks only the target's status. `accept_call` does not check
  that the partner is calling. `update_status` does not release a previous
  partner. The model keeps all three behaviours as written. As a result,
  symmetry holds only under stated conditions (see `Pairing`).
- The weaker form of symmetry only says "every busy user's partner points
  back". `accept_call`, `end_call`/`decline_call` and `remove_user` do not
  keep it: a disponible user with a stale `in_call_with` breaks it under each
  of them (`StalePartnerBreaksWeakSymmetry`). `Paired` adds three conditions:
  - a disponible user has no partner;
  - a partner is never the user itself;
  - the empty id is not registered.

  `accept_call`, `end_call`, `decline_call` and `remove_user` keep `Paired`
  for every registry. `initiate_call` keeps it when the caller is disponible,
  and `add_user` when the id is non-empty and either new or disponible; without
  these conditions both can break it (`BusyCallerBreaksPairing`,
  `ReregisterBreaksPairing`).

Parameters and opaque values: the websocket is an opaque `Socket`. Ids are
given strings; in the server they come from `uuid4`.

## Model

| member | source | states |
|---|---|---|
| `Registry.AvatarColor` | server.py:28-36 | the colour is the palette entry at index (sum of the id's code points) mod 10, and so is always one of the ten palette colours |
| `Registry.CharSumPermutation` | server.py:35 | the code-point sum is the same for any two strings with the same characters, in any order |
| `Registry.AvatarColorIgnoresOrder` | server.py:28-36 | the colour depends only on the id, and ids that are permutations of each other get the same colour |
| `Registry.UserInfoOf` | server.py:87-98 | the public view exists exactly for registered ids; it carries the id, username, status, colour and partner of the record, and leaves out the websocket |
| `CallState.Register` | server.py:38-51 | after `add_user(u, ws, name)`, `u` is registered with that socket and name, status disponible, no partner and colour `AvatarColor(u)`; every other user keeps its record |
| `CallState.SetStatus` | server.py:78-85 | for a registered user only status and partner change, to the given values, and socket, name and colour stay; no other user changes; an unknown id changes nothing |
| `CallState.Unregister` | server.py:53-68 | `u` is gone; a live partner other than `u` becomes disponible with no partner and keeps its other fields; no other record changes; an absent id leaves the dictionary as it was |
| `CallState.Initiate` | server.py:126-138 | succeeds exactly when `can_call_user` holds; then the caller is calling the target and the target is being called by the caller, all else unchanged; on failure nothing changes |
| `CallState.Accept` | server.py:140-150 | returns the user's live partner if there is one; then both are in call with each other and nobody else changes; otherwise returns None and changes nothing |
| `CallState.Release` | server.py:152-174 | `end_call` and `decline_call`: returns the live partner; then both are disponible with no partner and nobody else changes; otherwise returns None and changes nothing |
| `CallState.CanCall` | server.py:117-124 | the model of `can_call_user`; its own contract says that a call allowed has a distinct, registered caller and target and a disponible target; `Pairing.CanCallExactly` gives the converse, `Pairing.CanCallIgnoresCaller` shows the caller's status is never read, and `CallState.Initiate` succeeds exactly when it holds |
| `Pairing.CanCallExactly` | server.py:117-124 | `can_call_user` holds exactly when caller and target differ, both are registered and the target is disponible |
| `Pairing.CanCallIgnoresCaller` | server.py:117-124 | any change to the caller's own status or partner leaves `can_call_user` unchanged |
| `Pairing.PartnerIsLive` | server.py:143-144 | in a paired registry a busy user's partner is exactly what the transitions find as its live partner, and is not the user itself |
| `Pairing.RegisterKeepsPaired` | server.py:38-51 | registering a new non-empty id, or re-registering a disponible one, keeps the registry paired |
| `Pairing.InitiateKeepsPaired` | server.py:126-138 | `initiate_call` keeps the registry paired when the caller is disponible |
| `Pairing.AcceptKeepsPaired` | server.py:140-150 | `accept_call` keeps the registry paired |
| `Pairing.ReleaseKeepsPaired` | server.py:152-174 | `end_call` and `decline_call` keep the registry paired |
| `Pairing.UnregisterKeepsPaired` | server.py:53-68 | `remove_user` keeps the registry paired, because it releases the partner first |
| `Pairing.ReleaseLeavesNoPartner` | server.py:152-174 | in a paired registry, after end or decline the user is disponible with no partner, whether or not it had one |
| `Pairing.ReleaseIdempotent` | server.py:152-174 | a second end or decline straight after the first returns None and leaves the state as it is |
| `Pairing.AcceptIdempotent` | server.py:140-150 | accepting again straight after an accept returns the same partner and changes nothing |
| `Pairing.CallerCanAcceptOwnCall` | server.py:140-150 | because the partner's status is not checked, a caller can accept its own outgoing call, and both ends become in call |
| `Pairing.CallLifecycle` | server.py:53-150 | two disponible users in a paired registry: one calls the other and the callee accepts, which leaves both in call with each other and the registry paired; then the caller disconnects, which removes it and leaves the callee disponible with no partner, still paired |
| `Pairing.BusyTargetUnchanged` | server.py:117-138 | a call request to a target that is not disponible fails and changes no record |
| `Pairing.BusyCallerBreaksPairing` | server.py:117-138 | since the caller's status is not checked, a caller already in a call can start a second one, which leaves its first partner pointing at it (the registry is no longer paired) |
| `Pairing.SetStatusLeavesPartnerDangling` | server.py:78-85 | `update_status` alone does not release a previous partner: setting one end of a call to disponible breaks pairing |
| `Pairing.ReregisterBreaksPairing` | server.py:38-51 | `add_user` on an id that is in a call resets it and leaves its partner pointing at it |
| `Pairing.StalePartnerBreaksWeakSymmetry` | server.py:53-174 | the weaker invariant "every busy user's partner points back" is kept by none of `accept_call`, `end_call`/`decline_call` and `remove_user` when a disponible user has a stale partner |
| `Server.UnregisterKeepsConsistent` | server.py:64-67 | `remove_user` takes the id out of both the dictionary and the online set, so the online set stays equal to the dictionary's key set |
| `Server.RegisteredListedForOthers` | server.py:100-108 | after `add_user(u, ...)`, `u` is listed in the roster of every viewer except `u` itself |
| `Server.UserManager.constructor` | server.py:24-26 | the manager starts with no users and no one online |
| `Server.UserManager.AddUser` | server.py:38-51 | returns `AvatarColor(u)`; the dictionary becomes `Register(...)`; `u` is online; a new id is appended to the key order and an existing one keeps its place |
| `Server.UserManager.RemoveUser` | server.py:53-68 | the dictionary becomes `Unregister(...)`; `u` leaves the online set and the key order, the other ids keep theirs, and removing an absent id changes neither |
| `Server.UserManager.UpdateStatus` | server.py:78-85 | returns true exactly when the user was registered; the dictionary becomes `SetStatus(...)`; the online set and the order are unchanged |
| `Server.UserManager.GetOnlineUsers` | server.py:100-108 | the roster lists each online, registered user other than the excluded one exactly once, each as its public view |
| `Server.UserManager.FindUserByUsername` | server.py:110-115 | returns None exactly when no user has that username; otherwise returns the first id in dictionary order whose username matches |
| `Server.UserManager.InitiateCall` | server.py:126-138 | makes the two `update_status` calls exactly when `Initiate` succeeds, leaving its dictionary and returning its result |
| `Server.UserManager.AcceptCall` | server.py:140-150 | returns the partner and leaves the dictionary that `Accept` computes |
| `Server.UserManager.EndCall` | server.py:152-162 | returns the partner and leaves the dictionary that `Release` computes; its body is the helper `ReleasePair`, which has no counterpart in the source and holds the body `end_call` and `decline_call` share |
| `Server.UserManager.DeclineCall` | server.py:164-174 | the same state change and result as `EndCall`, through the same helper `ReleasePair` |

## Left out

- The websocket handler, `broadcast_user_list` and the HTTP handlers and
  server start-up (server.py:181-383): network I/O and JSON decoding. Their
  effect on the registry goes through the `UserManager` operations modelled
  here.
- `notify_partner_disconnected` and the task `remove_user` spawns for it
  (server.py:62, server.py:70-76): an asynchronous network send. Only the
  state change of `remove_user` is modelled.
- The `connected_at` timestamp (server.py:47) and all logging: clock and log side effects.
- Generating the connection id with `uuid4` (server.py:185): randomness. Ids are given strings.
- database.py is not part of this model: it is SQLite, password hashing and
  file storage through libraries that are not shown.
- `update_status` accepts any status string in Python. Every caller passes one
  of the four statuses, so the model's status is a four-value enum.
- `initiate_call` can be called with a missing target (`None` from the
  message). The model's target is a string; a `None` target is never
  registered, so such a call fails like a call to an unknown id.
- Message fields of other JSON types are not modelled: a list or object sent
  as `targetId` makes the membership test of `can_call_user` raise instead
  of returning false (the handler logs it and no state changes), and
  `username` may be any JSON value, while the model types ids and usernames
  as strings.
