/**
 * The name-building part of `path`: the human-readable name of a record,
 * built from the server's text and the kind, which is then hashed to name
 * the file.
 */
module Paths {
  import opened MetadataTypes

  const Suffix := "-metadata"

  /** The name `path` hashes for `(server, kind)`. */
  function CanonicalName(server: string, kind: Kind): (name: string)
    ensures |Suffix| <= |name| && name[|name| - |Suffix|..] == Suffix
    ensures !kind.Logs? ==> |server| < |name| && name[..|server|] == server
    ensures kind.Logs? ==> name == "log" + Suffix
  {
    match kind
    case Server => server + "-metadata"
    case Channel(channel) => server + "channel" + channel + "-metadata"
    case Query(nick) => server + "nickname" + nick + "-metadata"
    case Logs => "log-metadata"
  }

  /**
   * On one server, two kinds of the same variant get the same name only when
   * they are the same kind: one channel never shares the name of another.
   */
  lemma NameDeterminesKindOnServer(server: string, a: Kind, b: Kind)
    requires a.Server? == b.Server? && a.Channel? == b.Channel? && a.Query? == b.Query?
    requires CanonicalName(server, a) == CanonicalName(server, b)
    ensures a == b
  {
    var na := CanonicalName(server, a);
    var nb := CanonicalName(server, b);
    match a
    case Server =>
    case Logs =>
    case Channel(x) =>
      var y := b.channel;
      assert na == server + "channel" + x + "-metadata";
      assert |x| == |y|;
      assert x == na[|server| + 7..|na| - 9];
      assert y == nb[|server| + 7..|nb| - 9];
    case Query(x) =>
      var y := b.nick;
      assert na == server + "nickname" + x + "-metadata";
      assert |x| == |y|;
      assert x == na[|server| + 8..|na| - 9];
      assert y == nb[|server| + 8..|nb| - 9];
  }

  /**
   * The names are not injective across servers: a server named "achannelb"
   * shares its name with channel "b" on server "a", and a server named "log"
   * shares its name with the logs of every server.
   */
  lemma NamesCollideAcrossServers(anyServer: string)
    ensures CanonicalName("achannelb", Server) == CanonicalName("a", Channel("b"))
    ensures CanonicalName("log", Server) == CanonicalName(anyServer, Logs)
  {
    // both follow by evaluating the names
  }

  /**
   * On one server, two different kinds share a name only when the server's
   * text is "log" and the kinds are the server buffer and the logs.
   */
  lemma NamesOnOneServer(server: string, a: Kind, b: Kind)
    requires CanonicalName(server, a) == CanonicalName(server, b)
    ensures a == b || (server == "log" && {a, b} == {Server, Logs})
  {
    if a.Server? == b.Server? && a.Channel? == b.Channel? && a.Query? == b.Query? {
      NameDeterminesKindOnServer(server, a, b);
    } else if (a.Server? && b.Logs?) || (a.Logs? && b.Server?) {
      var na := CanonicalName(server, Server);
      assert server == na[..|na| - 9];
    } else if a.Channel? && b.Query? {
      ChannelAndQueryNamesDiffer(server, a.channel, b.nick);
    } else if a.Query? && b.Channel? {
      ChannelAndQueryNamesDiffer(server, b.channel, a.nick);
    }
    // every other pair of variants gives names of different lengths
  }

  /** A channel and a query on one server never share a name. */
  lemma ChannelAndQueryNamesDiffer(server: string, channel: string, nick: string)
    ensures CanonicalName(server, Channel(channel)) != CanonicalName(server, Query(nick))
  {
    // the character after the server's text: 'c' of "channel", 'n' of "nickname"
    assert CanonicalName(server, Channel(channel))[|server|] == 'c';
    assert CanonicalName(server, Query(nick))[|server|] == 'n';
  }
}
