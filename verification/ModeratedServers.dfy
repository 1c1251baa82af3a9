/** Which servers a user may manage: the aggregation pipeline against the check made on each request. */
module ModeratedServers {
  import opened Strings
  import opened Documents
  import opened Pipeline

  /** The users that matter, each with one of the servers he hosts: the stages before the facets. */
  function Unwound(users: seq<User>, servers: seq<Server>, userId: string): seq<(User, Server)> {
    var matched := Match(users, (u: User) => userId in u.moderatorIds || u.id == userId);
    Unwind(Lookup(matched, servers, (u: User, s: Server) => s.hostId == u.id))
  }

  /** The pipeline on the users collection. */
  function ModeratedServerIds(users: seq<User>, servers: seq<Server>, userId: string): seq<string> {
    var moderated := Moderated(users, servers, userId);
    var hosted := Match(Unwound(users, servers, userId), (d: (User, Server)) => d.0.id == userId);
    SetUnion(Project(moderated, (d: ((User, Server), Server)) => d.1.id), Project(hosted, (d: (User, Server)) => d.1.id))
  }

  /** What isModerator asks: the server's host exists and the server can be managed by the user. */
  predicate MayManage(users: seq<User>, server: Server, user: User) {
    exists h | h in users :: h.id == server.hostId && server.CanManage(h, user)
  }

  lemma UnwoundMembers(users: seq<User>, servers: seq<Server>, userId: string, h: User, s: Server)
    ensures (h, s) in Unwound(users, servers, userId)
            <==> h in users && (userId in h.moderatorIds || h.id == userId) && s in servers && s.hostId == h.id
  {
    var matched := Match(users, (u: User) => userId in u.moderatorIds || u.id == userId);
    JoinMembers(matched, servers, (u: User, s: Server) => s.hostId == u.id, h, s);
  }

  /** The documents behind the second lookup. */
  function Moderated(users: seq<User>, servers: seq<Server>, userId: string): seq<((User, Server), Server)> {
    var moderators := Match(Unwound(users, servers, userId), (d: (User, Server)) => userId in d.0.moderatorIds);
    Unwind(Lookup(moderators, servers, (d: (User, Server), s: Server) => s.hostId == d.0.id))
  }

  lemma ModeratedMembers(users: seq<User>, servers: seq<Server>, userId: string, h: User, s: Server, t: Server)
    ensures ((h, s), t) in Moderated(users, servers, userId)
            <==> (h, s) in Unwound(users, servers, userId) && userId in h.moderatorIds && t in servers && t.hostId == h.id
  {
    var moderators := Match(Unwound(users, servers, userId), (d: (User, Server)) => userId in d.0.moderatorIds);
    JoinMembers(moderators, servers, (d: (User, Server), s: Server) => s.hostId == d.0.id, (h, s), t);
  }

  /** The pipeline's ids, exactly. */
  lemma PipelineMeaning(users: seq<User>, servers: seq<Server>, userId: string, id: string)
    ensures id in ModeratedServerIds(users, servers, userId)
            <==> exists h, s | h in users && s in servers ::
                   s.id == id && s.hostId == h.id && (userId in h.moderatorIds || h.id == userId)
  {
    hide Unwound, Moderated;
    var unwound, moderated := Unwound(users, servers, userId), Moderated(users, servers, userId);
    var hosted := Match(unwound, (d: (User, Server)) => d.0.id == userId);
    ProjectMembers(moderated, (d: ((User, Server), Server)) => d.1.id, id);
    ProjectMembers(hosted, (d: (User, Server)) => d.1.id, id);
    if id in ModeratedServerIds(users, servers, userId) {
      if exists d | d in moderated :: d.1.id == id {
        var d :| d in moderated && d.1.id == id;
        ModeratedMembers(users, servers, userId, d.0.0, d.0.1, d.1);
        UnwoundMembers(users, servers, userId, d.0.0, d.0.1);
        assert d.0.0 in users && d.1 in servers;
      } else {
        var d :| d in hosted && d.1.id == id;
        UnwoundMembers(users, servers, userId, d.0, d.1);
        assert d.0 in users && d.1 in servers;
      }
    }
    if exists h, s | h in users && s in servers :: s.id == id && s.hostId == h.id && (userId in h.moderatorIds || h.id == userId) {
      var h, s :| h in users && s in servers && s.id == id && s.hostId == h.id && (userId in h.moderatorIds || h.id == userId);
      UnwoundMembers(users, servers, userId, h, s);
      if userId in h.moderatorIds {
        ModeratedMembers(users, servers, userId, h, s, s);
        assert ((h, s), s) in moderated;
      } else {
        assert (h, s) in hosted;
      }
    }
  }

  /** For every database and every user who is not a global moderator, the pipeline returns, each once, exactly the
      ids of the servers that the user may manage. */
  lemma PipelineIsCanManage(users: seq<User>, servers: seq<Server>, user: User)
    requires !user.Entitled(GlobalServerModerator)
    ensures Distinct(ModeratedServerIds(users, servers, user.id))
    ensures forall id :: id in ModeratedServerIds(users, servers, user.id)
                         <==> exists s | s in servers :: s.id == id && MayManage(users, s, user)
  {
    forall id
      ensures id in ModeratedServerIds(users, servers, user.id)
              <==> exists s | s in servers :: s.id == id && MayManage(users, s, user)
    {
      PipelineMeaning(users, servers, user.id, id);
      if id in ModeratedServerIds(users, servers, user.id) {
        var h, s :| h in users && s in servers && s.id == id && s.hostId == h.id && (user.id in h.moderatorIds || h.id == user.id);
        assert s.CanManage(h, user);
      }
      if exists s | s in servers :: s.id == id && MayManage(users, s, user) {
        var s :| s in servers && s.id == id && MayManage(users, s, user);
        var h :| h in users && h.id == s.hostId && s.CanManage(h, user);
      }
    }
  }

  // ---------------------------------------------------------------- the request

  /** The ModeratedServers request: three sources of ids, then the servers with these ids. */
  function ModeratedServersRequest(users: seq<User>, servers: seq<Server>, user: User): seq<Server> {
    var ids := if user.Entitled(GlobalServerModerator) then Project(servers, (s: Server) => s.id)
               else if user.Entitled(OfficialServerModerator) then Project(Match(servers, (s: Server) => s.official), (s: Server) => s.id)
               else ModeratedServerIds(users, servers, user.id);
    Match(servers, (s: Server) => s.id in ids)
  }

  ghost predicate UniqueServers(servers: seq<Server>) {
    forall s, t | s in servers && t in servers && s.id == t.id :: s == t
  }

  predicate HostsExist(users: seq<User>, servers: seq<Server>) {
    forall s | s in servers :: exists h | h in users :: h.id == s.hostId
  }

  /** The request lists exactly the servers the user may manage, unless he is an official-server moderator only. */
  lemma RequestIsCanManage(users: seq<User>, servers: seq<Server>, user: User)
    requires UniqueServers(servers) && HostsExist(users, servers)
    requires user.Entitled(OfficialServerModerator) ==> user.Entitled(GlobalServerModerator)
    ensures forall s :: s in ModeratedServersRequest(users, servers, user) <==> s in servers && MayManage(users, s, user)
  {
    forall s | s in servers
      ensures s in ModeratedServersRequest(users, servers, user) <==> MayManage(users, s, user)
    {
      if user.Entitled(GlobalServerModerator) {
        ProjectMembers(servers, (s: Server) => s.id, s.id);
        var h :| h in users && h.id == s.hostId;
        assert s.CanManage(h, user);
      } else {
        PipelineIsCanManage(users, servers, user);
      }
    }
  }

  /** These are listed the official servers and no others, whatever they may manage. */
  lemma OfficialModeratorsSeeOfficialServers(users: seq<User>, servers: seq<Server>, user: User)
    requires UniqueServers(servers) && user.Entitled(OfficialServerModerator) && !user.Entitled(GlobalServerModerator)
    ensures forall s :: s in ModeratedServersRequest(users, servers, user) <==> s in servers && s.official
  {
    var official := Match(servers, (s: Server) => s.official);
    forall s | s in servers
      ensures s in ModeratedServersRequest(users, servers, user) <==> s.official
    {
      ProjectMembers(official, (s: Server) => s.id, s.id);
    }
  }

  /** So a server hosted by such a moderator himself, when it is not official, is missing from his list. */
  lemma OfficialModeratorMissesOwnServer(users: seq<User>, servers: seq<Server>, user: User, own: Server)
    requires UniqueServers(servers) && user.Entitled(OfficialServerModerator) && !user.Entitled(GlobalServerModerator)
    requires user in users && own in servers && own.hostId == user.id && !own.official
    ensures MayManage(users, own, user) && own !in ModeratedServersRequest(users, servers, user)
  {
    assert own.CanManage(user, user);
    OfficialModeratorsSeeOfficialServers(users, servers, user);
  }

  /** For every user: his list is what he may manage exactly when he is a global moderator, or no official-server
      moderator, or what he may manage happens to be the official servers. */
  lemma RequestIsCanManageExactly(users: seq<User>, servers: seq<Server>, user: User)
    requires UniqueServers(servers) && HostsExist(users, servers)
    ensures (forall s :: s in ModeratedServersRequest(users, servers, user) <==> s in servers && MayManage(users, s, user))
            <==> user.Entitled(GlobalServerModerator) || !user.Entitled(OfficialServerModerator)
                 || forall s | s in servers :: s.official <==> MayManage(users, s, user)
  {
    hide ModeratedServersRequest, MayManage;
    if user.Entitled(GlobalServerModerator) || !user.Entitled(OfficialServerModerator) {
      RequestIsCanManage(users, servers, user);
    } else {
      OfficialModeratorsSeeOfficialServers(users, servers, user);
    }
  }
}
