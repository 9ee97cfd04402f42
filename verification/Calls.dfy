/** What direct and group calls share (src/realtime/socket.ts): participants and identifiers. */
module Calls {

  // Users, sockets and handlers in flight; only their equality matters.
  type Id = nat

  /** `participantsByUser`. */
  type Participants = map<Id, set<Id>>

  /** `addParticipant`. */
  function AddParticipant(p: Participants, user: Id, socket: Id): Participants {
    p[user := (if user in p then p[user] else {}) + {socket}]
  }

  /** `removeParticipant`: a user without sockets is dropped. */
  function RemoveParticipant(p: Participants, user: Id, socket: Id): Participants {
    if user !in p then p
    else if p[user] - {socket} == {} then p - {user}
    else p[user := p[user] - {socket}]
  }

  /** No user is listed without a socket. */
  predicate NoEmptySets(p: Participants) {
    forall u :: u in p ==> p[u] != {}
  }

  function SocketsOf(p: Participants, user: Id): set<Id> {
    if user in p then p[user] else {}
  }

  /** Adding and removing touch one socket of one user; who has no socket left is out. */
  lemma OneSocketChanges(p: Participants, user: Id, socket: Id, u: Id)
    ensures SocketsOf(AddParticipant(p, user, socket), u) == SocketsOf(p, u) + (if u == user then {socket} else {})
    ensures SocketsOf(RemoveParticipant(p, user, socket), u) == SocketsOf(p, u) - (if u == user then {socket} else {})
    ensures NoEmptySets(p) ==>
              (u in RemoveParticipant(p, user, socket)
               <==> SocketsOf(p, u) - (if u == user then {socket} else {}) != {})
  {
    if u != user {
      assert u in p ==> p[u] - {} == p[u];
    }
  }

  lemma ParticipantsKeepSockets(p: Participants, user: Id, socket: Id)
    requires NoEmptySets(p)
    ensures NoEmptySets(AddParticipant(p, user, socket)) && NoEmptySets(RemoveParticipant(p, user, socket))
    ensures RemoveParticipant(AddParticipant(p, user, socket), user, socket) == RemoveParticipant(p, user, socket)
  {
    var q := AddParticipant(p, user, socket);
    if user in p {
      assert q[user] - {socket} == p[user] - {socket};
    } else {
      assert q[user] - {socket} == {};
      assert q - {user} == p;
    }
  }
}
