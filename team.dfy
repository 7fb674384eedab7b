/**
 * The Team client object of team.js: the directories of the connected
 * session, the per-channel history cache, and the two operations that
 * format messages (`_parseMessage` and the cache logic of `channelsHistory`).
 * Network requests are not modelled: what a request would return is
 * passed in as a parameter.
 */
module TeamClient {
  import opened Wrappers
  import opened Emoji
  import opened JsString
  import opened Directory
  import opened Formatter

  /** A page of channel history as the service returns it; only its messages are modelled. */
  datatype Batch = Batch(messages: seq<Message>)

  /** A message with its formatted text stored on it. */
  function Formatted(users: seq<User>, channels: seq<Channel>, codes: Shortcodes,
                     esc: string -> string, clock: string -> string, msg: Message): (m: Message)
    ensures m.kind == msg.kind && m.text == msg.text && m.user == msg.user && m.ts == msg.ts
  {
    msg.(formattedText := FormatMessage(users, channels, codes, esc, clock, msg))
  }

  /** `batch` is `fetched` with every message formatted, in the same order. */
  ghost predicate FormattedBatch(users: seq<User>, channels: seq<Channel>, codes: Shortcodes,
                                 esc: string -> string, clock: string -> string, fetched: Batch, batch: Batch)
  {
    && |batch.messages| == |fetched.messages|
    && forall k :: 0 <= k < |batch.messages| ==>
         batch.messages[k] == Formatted(users, channels, codes, esc, clock, fetched.messages[k])
  }

  class Team {
    const token: string
    /** `state.users` of the connected session. */
    var users: seq<User>
    /** `state.channels` of the connected session. */
    var channels: seq<Channel>
    /** Channel id to the first batch fetched for it. */
    var history: map<string, Batch>

    constructor (token: string)
      ensures this.token == token && history == map[]
      ensures users == [] && channels == []
    {
      this.token := token;
      users, channels := [], [];
      history := map[];
    }

    /** `this.state = state` once the session has started: the directories change, the cache does not. */
    method Connected(users: seq<User>, channels: seq<Channel>)
      modifies this
      ensures this.users == users && this.channels == channels
      ensures history == old(history)
    {
      this.users, this.channels := users, channels;
    }

    /**
     * `_parseMessage`: the formatted text, or `None` for null; `logged`
     * tells whether the message was sent to the log (unknown author).
     */
    method ParseMessage(table: EmojiTable, esc: string -> string, clock: string -> string, msg: Message)
      returns (r: Option<string>, logged: bool)
      requires ValidTable(table)
      ensures r == FormatMessage(users, channels, CodePoints(table), esc, clock, msg)
      ensures logged <==> msg.kind == "message" && NoUser(users, msg.user)
    {
      if msg.kind != "message" {
        return None, false;
      }
      var text := msg.text;
      var user := FindUser(users, msg.user);
      UserFoundOrNot(users, msg.user);
      if user.None? {
        return None, true;
      }
      logged := false;
      var time := clock(msg.ts);
      var formatted := time + " {#" + user.value.color + "-fg}" + user.value.name + "{/} ";
      ghost var codes := CodePoints(table);
      ghost var prefix := formatted;

      while true
        invariant formatted + FormatBody(users, channels, codes, esc, text)
               == prefix + FormatBody(users, channels, codes, esc, msg.text)
        decreases |text|
      {
        var start := IndexOf(text, '<');
        var end := IndexOf(text, '>');
        if start == -1 || end == -1 {
          break;
        }
        ghost var done, rest := formatted, text;
        BodyStep(users, channels, codes, esc, text, start, end);
        var before := ReplaceEmojis(table, Substring(text, 0, start));
        assert esc(before) == Plain(codes, esc, rest[..start]) by {
          assert Substring(text, 0, start) == rest[..start];
        }
        formatted := formatted + esc(before);
        var substring := Substring(text, start + 1, end);
        text := text[end + 1..];
        var markup := TokenMarkup(esc, substring);
        formatted := formatted + markup;
        ConcatAssoc(done, Plain(codes, esc, rest[..start]), markup);
        ConcatAssoc(done, Plain(codes, esc, rest[..start]) + markup, FormatBody(users, channels, codes, esc, text));
      }

      var tail := ReplaceEmojis(table, text);
      formatted := formatted + esc(tail);
      r := Some(formatted);
    }

    /** The markup for one `<...>` token of a message body (the inner `if` chain of `_parseMessage`). */
    method TokenMarkup(esc: string -> string, token: string) returns (markup: string)
      ensures markup == RenderToken(users, channels, esc, token)
    {
      var substring := token;
      var alias: Option<string> := None;
      var n := IndexOf(substring, '|');
      if n > 0 {
        alias := Some(substring[n + 1..]);
        substring := substring[..n];
      }
      assert (substring, alias) == SplitToken(token);
      if substring != "" && substring[0] == '@' {
        var id := substring[1..];
        var name := AliasOr(alias, FindUserName(users, id, ""));
        markup := Highlight + "@" + esc(name) + Close;
      } else if substring != "" && substring[0] == '#' {
        var id := substring[1..];
        var name := AliasOr(alias, FindChannelName(channels, id, ""));
        markup := Highlight + "#" + esc(name) + Close;
      } else if substring != "" && substring[0] == '!' {
        var command := substring[1..];
        var shown := command;
        if command == "everyone" || command == "channel" || command == "group" {
          shown := "@" + command;
        }
        markup := Highlight + Bold + esc(shown) + Close;
      } else {
        var anchor := if AliasOr(alias, "") != "" then alias.value + " <" + substring + ">" else substring;
        markup := Highlight + Bold + esc(anchor) + Close;
      }
    }

    /**
     * The cache logic of `channelsHistory(id)`: a cached batch is returned
     * as it is; otherwise `fetched`, the batch the request would return,
     * has every message formatted, is stored under `id` and returned.
     */
    method ChannelsHistory(id: string, fetched: Batch, table: EmojiTable,
                           esc: string -> string, clock: string -> string) returns (body: Batch)
      requires ValidTable(table)
      modifies this`history
      ensures id in old(history) ==> body == old(history)[id] && history == old(history)
      ensures id !in old(history) ==>
                && FormattedBatch(users, channels, CodePoints(table), esc, clock, fetched, body)
                && history == old(history)[id := body]
    {
      if id in history {
        return history[id];
      }
      var messages: seq<Message> := [];
      for i := 0 to |fetched.messages|
        invariant |messages| == i && history == old(history)
        invariant forall k :: 0 <= k < i ==>
                    messages[k] == Formatted(users, channels, CodePoints(table), esc, clock, fetched.messages[k])
      {
        var message := fetched.messages[i];
        var text, _ := ParseMessage(table, esc, clock, message);
        messages := messages + [message.(formattedText := text)];
      }
      body := Batch(messages);
      history := history[id := body];
    }
  }

  /** The first fetch wins: a second request for the same channel returns the first batch, whatever the service would now return. */
  method FirstFetchWins(team: Team, id: string, first: Batch, second: Batch, table: EmojiTable,
                        esc: string -> string, clock: string -> string) returns (b1: Batch, b2: Batch)
    requires ValidTable(table) && id !in team.history
    modifies team`history
    ensures FormattedBatch(team.users, team.channels, CodePoints(table), esc, clock, first, b1)
    ensures b2 == b1 && team.history == old(team.history)[id := b1]
  {
    b1 := team.ChannelsHistory(id, first, table, esc, clock);
    b2 := team.ChannelsHistory(id, second, table, esc, clock);
  }
}
