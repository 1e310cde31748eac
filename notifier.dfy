/**
 * notifier.py: the configured/not-configured gate over the content of the
 * webhook configuration file and the assembly of the message sent to it.
 */
module Notifier {
  import opened Basics
  import opened Text
  import opened Api

  /** The line that follows the heading and every comment block. */
  const Separator: string := "--------------------------------------"

  const HeaderStart: string := "🔥 **【"
  const HeaderMiddle: string := "】发现 "
  const HeaderEnd: string := " 条新评论！**"

  /** The URL and the JSON payload `{"content": ...}` that would be posted. */
  datatype Delivery = Delivery(url: string, content: string)

  /**
   * `check_webhook_configured`: the file exists, is readable and is not blank.
   * `file` is the file's text, or None when it is missing or cannot be read.
   */
  function CheckWebhookConfigured(file: Option<string>): (configured: bool)
    ensures configured <==> file.Some? && !AllSpaces(file.value)
  {
    file.Some? && Strip(file.value) != ""
  }

  /** `s.replace('`', '').replace('*', '')`. */
  function Sanitize(s: string): (r: string)
    ensures '`' !in r && '*' !in r
    ensures r == Without(s, {'`', '*'})
  {
    RemoveTwice(s, '`', '*');
    RemoveChar(RemoveChar(s, '`'), '*')
  }

  /** Sanitising keeps every other character and keeps a clean string as it is. */
  lemma SanitizeKeepsOthers(s: string)
    ensures forall c | c in Sanitize(s) :: c in s
    ensures (forall i | 0 <= i < |s| :: s[i] != '`' && s[i] != '*') ==> Sanitize(s) == s
    ensures Sanitize(Sanitize(s)) == Sanitize(s)
  {
    WithoutKeepsOthers(s, {'`', '*'});
    var r := Sanitize(s);
    WithoutKeepsOthers(r, {'`', '*'});
  }

  /** The first line: the title and the number of new comments. */
  function Header(title: string, count: nat): string {
    HeaderStart + title + HeaderMiddle + ShowNat(count) + HeaderEnd
  }

  /** The title and the count can be read back from the first line at fixed offsets. */
  lemma HeaderMentions(title: string, count: nat)
    ensures var h := Header(title, count);
            var a := |HeaderStart|;
            var b := a + |title| + |HeaderMiddle|;
            && b + |ShowNat(count)| <= |h|
            && h[a..a + |title|] == title
            && AllDigits(h[b..b + |ShowNat(count)|])
            && DecimalValue(h[b..b + |ShowNat(count)|]) == count
  {
    var h := Header(title, count);
    var a := |HeaderStart|;
    var b := a + |title| + |HeaderMiddle|;
    assert h[b..b + |ShowNat(count)|] == ShowNat(count);
    assert h[a..a + |title|] == title;
    DecimalValueOfShowNat(count);
  }

  /** The tags that open the four lines of a block; every line after the first starts with a line break. */
  const UserTag := "**用户:** "
  const TypeTag := "\n**类型:** "
  const ContentTag := "\n**内容:** "
  const TimeTag := "\n**时间:** "

  /**
   * One comment block. User and message are sanitised; the type label is not.
   * `formatTime` stands for the zone conversion and `strftime`.
   */
  function Block(c: Record, formatTime: int -> string): string {
    UserTag + Sanitize(c.user) + TypeTag + c.kind + ContentTag + Sanitize(c.message) + TimeTag + formatTime(c.time)
  }

  /**
   * The block can be read back: it opens with the user tag, the sanitised
   * user, the type tag and the type label, and it ends with the content tag,
   * the sanitised message, the time tag and the formatted time.
   */
  lemma BlockFields(c: Record, formatTime: int -> string)
    ensures var b := Block(c, formatTime);
            var head := UserTag + Sanitize(c.user) + TypeTag + c.kind;
            var tail := ContentTag + Sanitize(c.message) + TimeTag + formatTime(c.time);
            var a := |UserTag| + |Sanitize(c.user)|;
            && b == head + tail && b[..|head|] == head && b[|head|..] == tail
            && b[..|UserTag|] == UserTag && b[|UserTag|..a] == Sanitize(c.user)
            && b[a..a + |TypeTag|] == TypeTag && b[a + |TypeTag|..|head|] == c.kind
  {
    var u := Sanitize(c.user);
    var head := UserTag + u + TypeTag + c.kind;
    var m, time := Sanitize(c.message), formatTime(c.time);
    AppendFour(head, ContentTag, m, TimeTag, time);
    FieldsAt(UserTag, u, TypeTag, c.kind, ContentTag + m + TimeTag + time);
  }

  /** The parts of a concatenation sit at their offsets. */
  lemma FieldsAt<T>(p: seq<T>, u: seq<T>, q: seq<T>, k: seq<T>, r: seq<T>)
    ensures var b := p + u + q + k + r;
            var t := |p| + |u| + |q|;
            && b[..|p|] == p && b[|p|..|p| + |u|] == u && b[|p| + |u|..t] == q && b[t..t + |k|] == k
  {
  }

  /** Appending four pieces one by one is appending their concatenation. */
  lemma AppendFour<T>(h: seq<T>, a: seq<T>, b: seq<T>, c: seq<T>, d: seq<T>)
    ensures h + a + b + c + d == h + (a + b + c + d)
    ensures (h + (a + b + c + d))[..|h|] == h && (h + (a + b + c + d))[|h|..] == a + b + c + d
  {
  }

  /** `message_lines`: the heading, the separator, then each block followed by a separator. */
  method MessageLines(title: string, comments: seq<Record>, formatTime: int -> string) returns (lines: seq<string>)
    ensures |lines| == 2 + 2 * |comments|
    ensures lines[0] == Header(title, |comments|) && lines[1] == Separator
    ensures forall i | 0 <= i < |comments| :: lines[2 + 2 * i] == Block(comments[i], formatTime)
    ensures forall i | 0 <= i < |comments| :: lines[3 + 2 * i] == Separator
    ensures lines == Layout(Header(title, |comments|), Blocks(comments, formatTime), Separator)
  {
    var head := Header(title, |comments|);
    ghost var blocks := Blocks(comments, formatTime);
    lines := [head, Separator];
    for k := 0 to |comments|
      invariant lines == Layout(head, blocks[..k], Separator)
    {
      var block := Block(comments[k], formatTime);
      LayoutStep(head, blocks, k, Separator);
      lines := lines + [block];
      lines := lines + [Separator];
    }
    assert blocks[..|comments|] == blocks;
    LayoutShape(head, blocks, Separator);
  }

  /** The blocks of the comments, in input order. */
  function Blocks(comments: seq<Record>, formatTime: int -> string): (bs: seq<string>)
    ensures |bs| == |comments|
    ensures forall i | 0 <= i < |comments| :: bs[i] == Block(comments[i], formatTime)
  {
    seq(|comments|, i requires 0 <= i < |comments| => Block(comments[i], formatTime))
  }

  /** Each block preceded by a newline and followed by a newline and `sep`. */
  function Interleave(blocks: seq<string>, sep: string): string {
    if blocks == [] then ""
    else Interleave(blocks[..|blocks| - 1], sep) + ("\n" + blocks[|blocks| - 1] + "\n" + sep)
  }

  /** The text that the comment blocks contribute after the first two lines. */
  function Body(comments: seq<Record>, formatTime: int -> string): string {
    Interleave(Blocks(comments, formatTime), Separator)
  }

  /** Two more lines after a non-empty joined prefix. */
  lemma JoinTwoMore(prefix: seq<string>, b: string, sep: string, h: string, b1: string)
    requires prefix != []
    requires Join(prefix, "\n") == h + b1
    ensures Join(prefix + [b, sep], "\n") == h + (b1 + ("\n" + b + "\n" + sep))
  {
    JoinAppend(prefix, b, "\n");
    JoinAppend(prefix + [b], sep, "\n");
    assert prefix + [b] + [sep] == prefix + [b, sep];
  }

  /** The lines of a message: a heading, a separator, then each block followed by a separator. */
  function Layout(head: string, blocks: seq<string>, sep: string): (lines: seq<string>)
    ensures |lines| == 2 + 2 * |blocks|
  {
    if blocks == [] then [head, sep]
    else Layout(head, blocks[..|blocks| - 1], sep) + [blocks[|blocks| - 1], sep]
  }

  /** One more block: its line and a separator after the layout of the blocks before it. */
  lemma LayoutStep(head: string, blocks: seq<string>, k: nat, sep: string)
    requires k < |blocks|
    ensures Layout(head, blocks[..k + 1], sep) == Layout(head, blocks[..k], sep) + [blocks[k]] + [sep]
  {
    var prefix := blocks[..k + 1];
    assert prefix[..k] == blocks[..k] && prefix[k] == blocks[k];
    var before := Layout(head, blocks[..k], sep);
    assert before + [blocks[k], sep] == before + [blocks[k]] + [sep];
  }

  /** Where each line of a layout sits. */
  lemma {:induction false} LayoutShape(head: string, blocks: seq<string>, sep: string)
    ensures var lines := Layout(head, blocks, sep);
            && lines[0] == head && lines[1] == sep
            && (forall i | 0 <= i < |blocks| :: lines[2 + 2 * i] == blocks[i] && lines[3 + 2 * i] == sep)
  {
    if blocks != [] {
      LayoutShape(head, blocks[..|blocks| - 1], sep);
    }
  }

  /** Joining the lines of a layout with newlines. */
  lemma {:induction false} JoinLayout(head: string, blocks: seq<string>, sep: string)
    ensures Join(Layout(head, blocks, sep), "\n") == head + "\n" + sep + Interleave(blocks, sep)
  {
    if blocks == [] {
      assert Join([head, sep], "\n") == head + "\n" + Join([sep], "\n");
    } else {
      var init := blocks[..|blocks| - 1];
      JoinLayout(head, init, sep);
      JoinTwoMore(Layout(head, init, sep), blocks[|blocks| - 1], sep, head + "\n" + sep, Interleave(init, sep));
    }
  }

  /**
   * `send_webhook_notification` up to the POST: nothing when the configuration
   * is missing or blank; otherwise the stripped URL and the joined lines.
   */
  method SendWebhookNotification(config: Option<string>, title: string, comments: seq<Record>, formatTime: int -> string)
    returns (delivery: Option<Delivery>)
    ensures delivery.None? <==> !CheckWebhookConfigured(config)
    ensures delivery.Some? ==> delivery.value.url == Strip(config.value) && delivery.value.url != ""
    ensures delivery.Some? ==> delivery.value.content == Header(title, |comments|) + "\n" + Separator + Body(comments, formatTime)
  {
    if !CheckWebhookConfigured(config) {
      return None;
    }
    var webhookUrl := Strip(config.value);
    var lines := MessageLines(title, comments, formatTime);
    var fullMessage := Join(lines, "\n");
    JoinLayout(Header(title, |comments|), Blocks(comments, formatTime), Separator);
    delivery := Some(Delivery(webhookUrl, fullMessage));
  }
}
