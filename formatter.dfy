/**
 * The message formatter of team.js (`_parseMessage`) as specification
 * functions: the author prefix, then a scan that cuts the text at `<...>`
 * tokens, renders each token as styled markup and passes the text between
 * tokens through replaceEmojis and the terminal library's escape function.
 *
 * The escape function (`blessed.escape`) belongs to a library this model
 * does not see, so every function here takes it as a parameter `esc`.
 */
module Formatter {
  import opened Wrappers
  import opened JsString
  import opened Emoji
  import opened Directory

  /**
   * A message as the service delivers it. `kind` is its `type` field,
   * `user` the author's id, `ts` the timestamp string, and `formattedText`
   * what the client stores on it once formatted (`None` for null).
   */
  datatype Message = Message(kind: string, text: string, user: string, ts: string, formattedText: Option<string>)

  /** Black on pale yellow: the markup every token opens with. */
  const Highlight := "{#000000-fg}{#FFF2BB-bg}"
  const Bold := "{bold}"
  /** Ends every style opened before it. */
  const Close := "{/}"

  // ---------------------------------------------------------------------
  // Tokens
  // ---------------------------------------------------------------------

  /**
   * The token split into its target and its alias: at the first `|`, and
   * only when that `|` is not the first character.
   */
  function SplitToken(token: string): (r: (string, Option<string>))
    ensures r.1.Some? <==> '|' in token && token[0] != '|'
    ensures r.1.Some? ==> r.0 != "" && '|' !in r.0 && r.0 + "|" + r.1.value == token
    ensures r.1.None? ==> r.0 == token
  {
    var n := IndexOf(token, '|');
    IndexOfIsFirst(token, '|');
    if n > 0 then (token[..n], Some(token[n + 1..])) else (token, None)
  }

  /** JavaScript `alias || fallback`, where the alias is null or a string. */
  function AliasOr(alias: Option<string>, fallback: string): string
  {
    if alias.Some? && alias.value != "" then alias.value else fallback
  }

  /** Whether the three group notifications `everyone`, `channel` and `group`. */
  predicate IsGroupCommand(cmd: string)
  {
    cmd == "everyone" || cmd == "channel" || cmd == "group"
  }

  /** The text shown for a `!command` token. */
  function CommandText(cmd: string): string
  {
    if IsGroupCommand(cmd) then "@" + cmd else cmd
  }

  /**
   * The markup for one `<...>` token: the highlight colours, a sigil or the
   * bold tag, the escaped text shown, and the closing tag.
   */
  function RenderToken(users: seq<User>, channels: seq<Channel>, esc: string -> string, token: string): string
  {
    var (target, alias) := SplitToken(token);
    Highlight + Sigil(target) + esc(Shown(users, channels, target, alias)) + Close
  }

  /** `@` for a user mention, `#` for a channel link, the bold tag for a command or a plain link. */
  function Sigil(target: string): string
  {
    if target != "" && target[0] == '@' then "@"
    else if target != "" && target[0] == '#' then "#"
    else Bold
  }

  /** The text a token shows, chosen by the first character of its target. */
  function Shown(users: seq<User>, channels: seq<Channel>, target: string, alias: Option<string>): string
  {
    if target != "" && target[0] == '@' then AliasOr(alias, FindUserName(users, target[1..], ""))
    else if target != "" && target[0] == '#' then AliasOr(alias, FindChannelName(channels, target[1..], ""))
    else if target != "" && target[0] == '!' then CommandText(target[1..])
    else if AliasOr(alias, "") != "" then alias.value + " <" + target + ">"
    else target
  }

  // ---------------------------------------------------------------------
  // The body scan and the whole message
  // ---------------------------------------------------------------------

  /** A literal stretch of text: `blessed.escape(replaceEmojis(s))`. */
  function Plain(codes: Shortcodes, esc: string -> string, s: string): string
  {
    esc(Expand(codes, DecodeEntities(s)))
  }

  /**
   * The body scan: while the text holds both a `<` and a `>`, emit the text
   * before the first `<`, then the token between the first `<` and the first
   * `>` (JavaScript's `substring` swaps its bounds when the `>` comes first),
   * and go on after that `>`; then emit what is left.
   */
  function FormatBody(users: seq<User>, channels: seq<Channel>, codes: Shortcodes,
                      esc: string -> string, text: string): string
    decreases |text|
  {
    var start := IndexOf(text, '<');
    var end := IndexOf(text, '>');
    if start == -1 || end == -1 then Plain(codes, esc, text)
    else
      Plain(codes, esc, text[..start])
      + RenderToken(users, channels, esc, Substring(text, start + 1, end))
      + FormatBody(users, channels, codes, esc, text[end + 1..])
  }

  /** One round of the body scan, once both brackets are found. */
  lemma BodyStep(users: seq<User>, channels: seq<Channel>, codes: Shortcodes,
                 esc: string -> string, text: string, start: int, end: int)
    requires start == IndexOf(text, '<') && start != -1
    requires end == IndexOf(text, '>') && end != -1
    ensures FormatBody(users, channels, codes, esc, text)
         == Plain(codes, esc, text[..start]) + RenderToken(users, channels, esc, Substring(text, start + 1, end))
            + FormatBody(users, channels, codes, esc, text[end + 1..])
  {
  }

  /** The time, then the author's name in the author's colour. */
  function AuthorPrefix(time: string, author: User): string
  {
    time + " {#" + author.color + "-fg}" + author.name + "{/} "
  }

  /**
   * `_parseMessage`: null for anything but a plain message and for an
   * author the directory does not hold; otherwise the author prefix and the
   * formatted body. `clock` renders a timestamp as `HH:mm`.
   */
  function FormatMessage(users: seq<User>, channels: seq<Channel>, codes: Shortcodes,
                         esc: string -> string, clock: string -> string, msg: Message): Option<string>
  {
    if msg.kind != "message" then None
    else
      match FindUser(users, msg.user)
      case None => None
      case Some(author) => Some(AuthorPrefix(clock(msg.ts), author) + FormatBody(users, channels, codes, esc, msg.text))
  }

  // ---------------------------------------------------------------------
  // Properties of the whole message
  // ---------------------------------------------------------------------

  /** No text comes out exactly for a message of another type or of an unknown author. */
  lemma FormatMessageNull(users: seq<User>, channels: seq<Channel>, codes: Shortcodes,
                          esc: string -> string, clock: string -> string, msg: Message)
    ensures FormatMessage(users, channels, codes, esc, clock, msg).None?
        <==> msg.kind != "message" || NoUser(users, msg.user)
  {
    UserFoundOrNot(users, msg.user);
  }

  /** Otherwise the text is the prefix built from the first user with the author's id, then the body. */
  lemma FormatMessageText(users: seq<User>, channels: seq<Channel>, codes: Shortcodes,
                          esc: string -> string, clock: string -> string, msg: Message, i: int)
    requires msg.kind == "message" && FirstUser(users, msg.user, i)
    ensures FormatMessage(users, channels, codes, esc, clock, msg)
         == Some(clock(msg.ts) + " {#" + users[i].color + "-fg}" + users[i].name + "{/} "
                 + FormatBody(users, channels, codes, esc, msg.text))
  {
  }

  // ---------------------------------------------------------------------
  // Properties of the body scan
  // ---------------------------------------------------------------------

  /** The scan stops as soon as the text lacks a `<` or lacks a `>`, and emits the rest as literal text. */
  lemma BodyWithoutToken(users: seq<User>, channels: seq<Channel>, codes: Shortcodes,
                         esc: string -> string, text: string)
    requires '<' !in text || '>' !in text
    ensures FormatBody(users, channels, codes, esc, text) == Plain(codes, esc, text)
  {
    IndexOfIsFirst(text, '<');
    IndexOfIsFirst(text, '>');
  }

  /**
   * A well-formed token: the text before it, the rendered token, then the
   * scan of what follows the `>`.
   */
  lemma BodyToken(users: seq<User>, channels: seq<Channel>, codes: Shortcodes,
                  esc: string -> string, before: string, token: string, rest: string)
    requires '<' !in before && '>' !in before && '>' !in token
    ensures FormatBody(users, channels, codes, esc, before + "<" + token + ">" + rest)
         == Plain(codes, esc, before) + RenderToken(users, channels, esc, token)
            + FormatBody(users, channels, codes, esc, rest)
  {
    var text := before + "<" + token + ">" + rest;
    var start, end := |before|, |before| + 1 + |token|;
    assert text[..start] == before;
    IndexOfAt(text, '<', start);
    assert text[..end] == before + "<" + token;
    IndexOfAt(text, '>', end);
    assert text[start + 1..end] == token;
    assert text[end + 1..] == rest;
  }

  /**
   * A `>` before the first `<`: the text through the `<` is emitted as
   * literal text, the stretch from that `>` through the `<` is rendered as a
   * token, and the scan goes on right after the `>`, so the text between
   * the two is emitted again.
   */
  lemma BodySwappedBrackets(users: seq<User>, channels: seq<Channel>, codes: Shortcodes,
                            esc: string -> string, a: string, b: string, c: string)
    requires '<' !in a && '>' !in a && '<' !in b
    ensures FormatBody(users, channels, codes, esc, a + ">" + b + "<" + c)
         == Plain(codes, esc, a + ">" + b) + RenderToken(users, channels, esc, ">" + b + "<")
            + FormatBody(users, channels, codes, esc, b + "<" + c)
  {
    var text := a + ">" + b + "<" + c;
    var end, start := |a|, |a| + 1 + |b|;
    assert text[..end] == a;
    IndexOfAt(text, '>', end);
    assert text[..start] == a + ">" + b;
    IndexOfAt(text, '<', start);
    assert text[end..start + 1] == ">" + b + "<";
    assert text[end + 1..] == b + "<" + c;
  }

  /** Text with no brackets, no colon and no `&` is only escaped. */
  lemma PlainBody(users: seq<User>, channels: seq<Channel>, codes: Shortcodes,
                  esc: string -> string, text: string)
    requires '<' !in text && '>' !in text && ':' !in text && '&' !in text
    ensures FormatBody(users, channels, codes, esc, text) == esc(text)
  {
    BodyWithoutToken(users, channels, codes, esc, text);
    DecodeNoAmpersand(text);
    IndexOfIsFirst(text, ':');
  }

  // ---------------------------------------------------------------------
  // Properties of token rendering
  // ---------------------------------------------------------------------

  /** A leading `|` does not split: it stays part of the target. */
  lemma LeadingPipeStays(users: seq<User>, channels: seq<Channel>, esc: string -> string, rest: string)
    ensures SplitToken("|" + rest) == ("|" + rest, None)
    ensures RenderToken(users, channels, esc, "|" + rest) == Highlight + Bold + esc("|" + rest) + Close
  {
    assert ("|" + rest)[0] == '|';
  }

  /** Splitting `target|alias` at the first `|`. */
  lemma SplitAtFirstPipe(target: string, alias: string)
    requires target != "" && '|' !in target
    ensures SplitToken(target + "|" + alias) == (target, Some(alias))
  {
    var token := target + "|" + alias;
    assert token[..|target|] == target;
    IndexOfAt(token, '|', |target|);
    assert token[|target| + 1..] == alias;
  }

  /** A `@id` mention: a non-empty alias wins over the user lookup. */
  lemma RenderUserMention(users: seq<User>, channels: seq<Channel>, esc: string -> string, id: string, alias: string)
    requires '|' !in id
    ensures RenderToken(users, channels, esc, "@" + id + "|" + alias)
         == Highlight + "@" + esc(if alias != "" then alias else FindUserName(users, id, "")) + Close
    ensures RenderToken(users, channels, esc, "@" + id)
         == Highlight + "@" + esc(FindUserName(users, id, "")) + Close
  {
    SplitAtFirstPipe("@" + id, alias);
    assert "@" + id + "|" + alias == ("@" + id) + "|" + alias;
    assert ("@" + id)[1..] == id;
    IndexOfIsFirst("@" + id, '|');
  }

  /** A `@id` mention of an id no user has, without alias, shows the raw id. */
  lemma RenderUnknownUser(users: seq<User>, channels: seq<Channel>, esc: string -> string, id: string)
    requires '|' !in id && NoUser(users, id)
    ensures RenderToken(users, channels, esc, "@" + id) == Highlight + "@" + esc(id) + Close
  {
    RenderUserMention(users, channels, esc, id, "");
  }

  /** A `#id` channel link: a non-empty alias wins over the channel lookup. */
  lemma RenderChannelLink(users: seq<User>, channels: seq<Channel>, esc: string -> string, id: string, alias: string)
    requires '|' !in id
    ensures RenderToken(users, channels, esc, "#" + id + "|" + alias)
         == Highlight + "#" + esc(if alias != "" then alias else FindChannelName(channels, id, "")) + Close
    ensures RenderToken(users, channels, esc, "#" + id)
         == Highlight + "#" + esc(FindChannelName(channels, id, "")) + Close
  {
    SplitAtFirstPipe("#" + id, alias);
    assert "#" + id + "|" + alias == ("#" + id) + "|" + alias;
    assert ("#" + id)[1..] == id;
    IndexOfIsFirst("#" + id, '|');
  }

  /** A `#id` link to an id no channel has, without alias, shows the raw id. */
  lemma RenderUnknownChannel(users: seq<User>, channels: seq<Channel>, esc: string -> string, id: string)
    requires '|' !in id && NoChannel(channels, id)
    ensures RenderToken(users, channels, esc, "#" + id) == Highlight + "#" + esc(id) + Close
  {
    RenderChannelLink(users, channels, esc, id, "");
  }

  /**
   * A `!command`: `everyone`, `channel` and `group` show as `@everyone`,
   * `@channel`, `@group`; any other command shows as itself; the alias is ignored.
   */
  lemma RenderCommand(users: seq<User>, channels: seq<Channel>, esc: string -> string, cmd: string, alias: string)
    requires '|' !in cmd
    ensures RenderToken(users, channels, esc, "!" + cmd + "|" + alias)
         == Highlight + Bold + esc(if IsGroupCommand(cmd) then "@" + cmd else cmd) + Close
    ensures RenderToken(users, channels, esc, "!" + cmd)
         == Highlight + Bold + esc(if IsGroupCommand(cmd) then "@" + cmd else cmd) + Close
  {
    SplitAtFirstPipe("!" + cmd, alias);
    assert "!" + cmd + "|" + alias == ("!" + cmd) + "|" + alias;
    assert ("!" + cmd)[1..] == cmd;
    IndexOfIsFirst("!" + cmd, '|');
  }

  /**
   * Any other target is a link in bold: `alias <target>` when a non-empty
   * alias is given, else the target alone.
   */
  lemma RenderLink(users: seq<User>, channels: seq<Channel>, esc: string -> string, target: string, alias: string)
    requires target != "" && target[0] != '@' && target[0] != '#' && target[0] != '!' && '|' !in target
    ensures RenderToken(users, channels, esc, target + "|" + alias)
         == Highlight + Bold + esc(if alias != "" then alias + " <" + target + ">" else target) + Close
    ensures RenderToken(users, channels, esc, target) == Highlight + Bold + esc(target) + Close
  {
    SplitAtFirstPipe(target, alias);
    IndexOfIsFirst(target, '|');
  }

  /** `r` opens with the highlight markup and ends with the closing tag. */
  ghost predicate IsFramed(r: string)
  {
    |r| >= |Highlight| + |Close| && r[..|Highlight|] == Highlight && r[|r| - |Close|..] == Close
  }

  /** Every token, however malformed, renders inside the highlight markup and closes it. */
  lemma RenderTokenFramed(users: seq<User>, channels: seq<Channel>, esc: string -> string, token: string)
    ensures IsFramed(RenderToken(users, channels, esc, token))
  {
    var (target, alias) := SplitToken(token);
    var r := Highlight + (Sigil(target) + esc(Shown(users, channels, target, alias))) + Close;
    assert r[..|Highlight|] == Highlight && r[|r| - |Close|..] == Close;
  }
}
