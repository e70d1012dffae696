/** The registry of SGSN connections and the routing of sends to them. */
module Servers {
  import opened Basics
  import opened IpaCodec
  import opened Sessions

  /** The two tables of the server and its id counter, over any kind of session. */
  datatype Registry<S> = Registry(sessions: map<ClientId, S>, all: map<ClientId, S>, next: ClientId)

  function EmptyRegistry<S>(): Registry<S> { Registry(map[], map[], 1) }

  function Accepted<S>(r: Registry<S>, s: S): Registry<S> {
    r.(all := r.all[r.next := s], next := (r.next + 1) % 0x1_0000_0000_0000_0000)
  }

  function Readied<S>(r: Registry<S>, id: ClientId): Registry<S> {
    if id in r.all then r.(sessions := r.sessions[id := r.all[id]]) else r
  }

  function Removed<S>(r: Registry<S>, id: ClientId): Registry<S> {
    r.(sessions := r.sessions - {id}, all := r.all - {id})
  }

  /** `sessions` is a sub-map of `all`. */
  ghost predicate SubMap<S>(r: Registry<S>) {
    forall id :: id in r.sessions ==> id in r.all && r.sessions[id] == r.all[id]
  }

  lemma {:induction false} OperationsKeepSubMap<S>(r: Registry<S>, s: S, id: ClientId)
    requires SubMap(r)
    ensures r.next !in r.sessions ==> SubMap(Accepted(r, s))
    ensures SubMap(Readied(r, id)) && SubMap(Removed(r, id))
  {
  }

  class IpaServer {
    var sessions: map<ClientId, IpaSession>
    var allSessions: map<ClientId, IpaSession>
    var nextClientId: ClientId

    ghost function View(): Registry<IpaSession>
      reads this
    {
      Registry(sessions, allSessions, nextClientId)
    }

    /** Registered sessions are distinct objects. */
    ghost predicate Valid()
      reads this
    {
      && SubMap(View())
      && forall i, j :: i in allSessions && j in allSessions && i != j ==> allSessions[i] != allSessions[j]
    }

    constructor ()
      ensures Valid() && View() == EmptyRegistry()
    {
      sessions, allSessions, nextClientId := map[], map[], 1;
    }

    /** Accepting a connection: the session is registered under the next id and asked to identify. */
    method OnAccept() returns (session: IpaSession)
      requires Valid()
      modifies this
      ensures fresh(session) && session.View() == Enqueued(FRESH_VIEW, ID_GET_FRAME)
      ensures View() == Accepted(old(View()), session)
      ensures old(nextClientId) !in old(sessions) ==> Valid()
    {
      var id := nextClientId;
      nextClientId := (nextClientId + 1) % 0x1_0000_0000_0000_0000;
      session := new IpaSession();
      allSessions := allSessions[id := session];
      session.Begin();
    }

    method OnSessionReady(id: ClientId)
      requires Valid()
      modifies this
      ensures Valid() && View() == Readied(old(View()), id)
    {
      if id in allSessions { sessions := sessions[id := allSessions[id]]; }
    }

    method OnSessionDisconnect(id: ClientId)
      requires Valid()
      modifies this
      ensures Valid() && View() == Removed(old(View()), id)
    {
      sessions := sessions - {id};
      allSessions := allSessions - {id};
    }

    /** Every registered session is stopped, keeping all else it holds, and both tables are emptied;
        ids go on counting. */
    method Stop(order: seq<ClientId>)
      requires Valid() && Enumerates(order, allSessions.Keys)
      modifies this, allSessions.Values
      ensures Valid() && View() == old(View()).(sessions := map[], all := map[])
      ensures forall id :: id in old(allSessions) ==>
                old(allSessions)[id].View() == old(allSessions[id].View()).(phase := Stopped)
    {
      hide IpaSession.View;
      var table := allSessions;
      var list := seq(|order|, i requires 0 <= i < |order| => table[order[i]]);
      assert forall i :: 0 <= i < |list| ==> order[i] in order && list[i] == table[order[i]];
      assert forall i, j :: 0 <= i < j < |list| ==> list[i] != list[j];
      forall id | id in table ensures exists i :: 0 <= i < |list| && order[i] == id && list[i] == table[id] {
        assert id in order;
      }
      StopEach(list);
      sessions := map[];
      allSessions := map[];
    }

    /** Id 0 addresses every ready session, any other id the session registered under it, if it is
        ready; all other sessions are left as they are. */
    method Send(payload: Bytes, id: ClientId, order: seq<ClientId>) returns (st: Status)
      requires Valid() && Enumerates(order, sessions.Keys)
      modifies if id == 0 then sessions.Values else if id in sessions then {sessions[id]} else {}
      ensures forall i :: i in sessions ==>
                sessions[i].View() == if id == 0 || i == id
                                      then SentIfReady(old(sessions[i].View()), IpaFrame(STREAM_GSUP, payload))
                                      else old(sessions[i].View())
      ensures st.Thrown? <==>
                exists i :: i in sessions && (id == 0 || i == id) && SendThrows(old(sessions[i].View()), payload)
    {
      hide SentIfReady, SendThrows, IpaSession.View;
      if id == 0 {
        st := Broadcast(payload, order);
      } else {
        assert forall i :: i in sessions && i != id && id in sessions ==> sessions[i] != sessions[id];
        st := SendTo(payload, id);
      }
    }

    /** A send to one session reaches that session, if it is registered and ready, and no other. */
    method SendTo(payload: Bytes, id: ClientId) returns (st: Status)
      requires Valid() && id != 0
      modifies if id in sessions then {sessions[id]} else {}
      ensures id in sessions ==>
                && sessions[id].View() == SentIfReady(old(sessions[id].View()), IpaFrame(STREAM_GSUP, payload))
                && (st.Thrown? <==> SendThrows(old(sessions[id].View()), payload))
      ensures id !in sessions ==> st.Done?
    {
      if id in sessions {
        st := SendIfReady(sessions[id], payload);
      } else {
        st := Done;
      }
    }

    /** A broadcast reaches exactly the registered sessions that are ready, once each. */
    method Broadcast(payload: Bytes, order: seq<ClientId>) returns (st: Status)
      requires Valid() && Enumerates(order, sessions.Keys)
      modifies sessions.Values
      ensures forall id :: id in sessions ==>
                sessions[id].View() == SentIfReady(old(sessions[id].View()), IpaFrame(STREAM_GSUP, payload))
      ensures st.Thrown? <==> exists id :: id in sessions && SendThrows(old(sessions[id].View()), payload)
    {
      hide SentIfReady, SendThrows, IpaSession.View;
      var table := sessions;
      var list := seq(|order|, i requires 0 <= i < |order| => table[order[i]]);
      assert forall i :: 0 <= i < |list| ==> order[i] in order && list[i] == table[order[i]];
      assert forall i, j :: 0 <= i < j < |list| ==> list[i] != list[j];
      forall id | id in table ensures exists i :: 0 <= i < |list| && order[i] == id && list[i] == table[id] {
        assert id in order;
      }
      st := SendEach(list, payload);
    }
  }

  method StopEach(list: seq<IpaSession>)
    requires forall i, j :: 0 <= i < j < |list| ==> list[i] != list[j]
    modifies list
    ensures forall i :: 0 <= i < |list| ==> list[i].View() == old(list[i].View()).(phase := Stopped)
  {
    hide IpaSession.View;
    for i := 0 to |list|
      invariant forall j :: 0 <= j < i ==> list[j].View() == old(list[j].View()).(phase := Stopped)
      invariant forall j :: i <= j < |list| ==> list[j].View() == old(list[j].View())
    {
      list[i].Stop();
    }
  }

  method SendEach(list: seq<IpaSession>, payload: Bytes) returns (st: Status)
    requires forall i, j :: 0 <= i < j < |list| ==> list[i] != list[j]
    modifies list
    ensures forall i :: 0 <= i < |list| ==> list[i].View() == SentIfReady(old(list[i].View()), IpaFrame(STREAM_GSUP, payload))
    ensures st.Thrown? <==> exists i :: 0 <= i < |list| && SendThrows(old(list[i].View()), payload)
  {
    hide SentIfReady, SendThrows, IpaSession.View;
    for i := 0 to |list|
      invariant forall j :: 0 <= j < i ==> list[j].View() == SentIfReady(old(list[j].View()), IpaFrame(STREAM_GSUP, payload))
      invariant forall j :: i <= j < |list| ==> list[j].View() == old(list[j].View())
      invariant forall j :: 0 <= j < i ==> !SendThrows(old(list[j].View()), payload)
    {
      st := SendIfReady(list[i], payload);
      if st.Thrown? {
        ThrowSendsNothing(old(list[i].View()), payload);
        return;
      }
    }
    st := Done;
  }

  method SendIfReady(session: IpaSession, payload: Bytes) returns (st: Status)
    modifies session
    ensures session.View() == SentIfReady(old(session.View()), IpaFrame(STREAM_GSUP, payload))
    ensures st.Thrown? <==> SendThrows(old(session.View()), payload)
  {
    hide Encoded, Enqueued;
    st := Done;
    if session.state == Ready { st := session.SendGsup(payload); }
  }

  predicate SendThrows(v: SessionView, payload: Bytes) { v.phase.Ready? && Encoded(IpaFrame(STREAM_GSUP, payload)).Failure? }

  lemma {:induction false} ThrowSendsNothing(v: SessionView, payload: Bytes)
    requires SendThrows(v, payload)
    ensures forall w :: SentIfReady(w, IpaFrame(STREAM_GSUP, payload)) == w
  {
  }

  function SentIfReady(v: SessionView, f: IpaFrame): SessionView {
    if v.phase.Ready? && Encoded(f).Success? then Enqueued(v, f) else v
  }
}
