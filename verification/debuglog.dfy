/** The debug-message formatting of utils.ts `_debug`: each message becomes
    text (strings verbatim, anything else as its JSON text), the value after
    the first `"icon":` key is replaced by a marker, long texts are cut to
    their two ends, and the pieces are joined after the message type. */
module DebugLog {
  import opened Text

  /** One argument of `_debug`: a string, or any other value `V`. */
  datatype Message<V> = Str(s: string) | Value(v: V)

  /** The key whose value is hidden: double quote, `icon`, double quote, colon. */
  const IconKey := "\"icon\":"
  const IconMark := "<ICON>"
  const Limit := 500

  /** A string message is used as it is; any other value is replaced by
      `stringify(v)`, its JSON text. */
  function MessageText<V>(m: Message<V>, stringify: V -> string): (t: string)
    ensures m.Str? ==> t == m.s
    ensures m.Value? ==> t == stringify(m.v)
  {
    match m
    case Str(s) => s
    case Value(v) => stringify(v)
  }

  /** Icon redaction. `p` is the first occurrence of `IconKey`; the text is
      kept through index `p + 8` (the key and one more character), then
      `IconMark`, then the text from the next double quote at or after `p + 8`.
      When no quote follows, that index is -1 and `substring(-1)` is the whole text. */
  function Redact(t: string): (r: string)
    ensures NoneFrom(t, IconKey, 0) ==> r == t
    ensures !NoneFrom(t, IconKey, 0) ==> |r| >= |IconKey| + |IconMark|
  {
    var p := IndexOf(t, IconKey, 0);
    if p >= 0 then
      var e := IndexOf(t, "\"", p + 8);
      Substring(t, 0, p + 8) + IconMark + SubstringFrom(t, e)
    else t
  }

  /** The key at `p` and a closing quote at `e`: everything between index
      `p + 8` and `e` is replaced by the marker, the rest kept as it is.
      Only the first key is redacted: anything from `e` on is untouched. */
  lemma RedactValue(t: string, p: int, e: int)
    requires FirstAt(t, IconKey, 0, p) && FirstAt(t, "\"", p + 8, e)
    ensures Redact(t) == t[..p + 8] + IconMark + t[e..]
  {
    IndexOfFinds(t, IconKey, 0, p);
    IndexOfFinds(t, "\"", p + 8, e);
  }

  /** No quote after the key: the marker is followed by a second copy of the whole text. */
  lemma RedactNoClosingQuote(t: string, p: int)
    requires FirstAt(t, IconKey, 0, p) && NoneFrom(t, "\"", p + 8)
    ensures Redact(t) == t[..Min(p + 8, |t|)] + IconMark + t
  {
  }

  /** `IconKey` cannot begin inside `pre` and end inside `IconKey` placed right after it. */
  lemma KeyDoesNotStraddle(pre: string, rest: string, j: int)
    requires |pre| - |IconKey| < j < |pre|
    ensures !OccursAt(pre + IconKey + rest, IconKey, j)
  {
    var t := pre + IconKey + rest;
    assert t[|pre|] == '"' && t[|pre| + 1] == 'i';
  }

  /** With no key in `pre`, the key placed right after `pre` is the first one. */
  lemma KeyAfterPrefixIsFirst(pre: string, rest: string)
    requires NoneFrom(pre, IconKey, 0)
    ensures FirstAt(pre + IconKey + rest, IconKey, 0, |pre|)
  {
    var t := pre + IconKey + rest;
    var p := |pre|;
    assert t[p..p + 7] == IconKey;
    forall j | 0 <= j < p
      ensures !OccursAt(t, IconKey, j)
    {
      if j + 7 <= p {
        assert t[j..j + 7] == pre[j..j + 7];
        assert !OccursAt(pre, IconKey, j);
      } else {
        KeyDoesNotStraddle(pre, rest, j);
      }
    }
  }

  /** In `head + v + "\"" + post` with no quote in `v`, the first quote from `|head|` on ends `v`. */
  lemma QuoteAfterValueIsFirst(head: string, v: string, post: string)
    requires '"' !in v
    ensures FirstAt(head + v + "\"" + post, "\"", |head|, |head| + |v|)
  {
    var t := head + v + "\"" + post;
    var e := |head| + |v|;
    assert t[e..e + 1] == "\"";
    forall j | |head| <= j < e
      ensures !OccursAt(t, "\"", j)
    {
      assert t[j] == v[j - |head|];
      assert t[j..j + 1] == [t[j]];
    }
  }

  /** Cutting `head + v + "\"" + post` around `v`. */
  lemma SplitAroundValue(head: string, v: string, post: string)
    ensures var t := head + v + "\"" + post;
            t[..|head|] == head && t[|head| + |v|..] == "\"" + post
  {
    var t := head + v + "\"" + post;
    var hv := head + v;
    assert t == hv + ("\"" + post);
    assert t[..|hv|] == hv && hv[..|head|] == head;
  }

  /** The redaction of `head + v + "\"" + post`, where `head` ends with the first key and an opening quote. */
  lemma RedactAfterHead(pre: string, head: string, v: string, post: string)
    requires head == pre + IconKey + "\""
    requires NoneFrom(pre, IconKey, 0)
    requires '"' !in v
    ensures Redact(head + v + "\"" + post) == head + IconMark + ("\"" + post)
  {
    var t := head + v + "\"" + post;
    var rest := "\"" + v + "\"" + post;
    assert t == pre + IconKey + rest;
    KeyAfterPrefixIsFirst(pre, rest);
    QuoteAfterValueIsFirst(head, v, post);
    RedactValue(t, |pre|, |head| + |v|);
    SplitAroundValue(head, v, post);
  }

  /** The intended use: a JSON text whose first `icon` key has a string value
      `v` comes out with `v` replaced by the marker and nothing else changed. */
  lemma RedactHidesIconValue(pre: string, v: string, post: string)
    requires NoneFrom(pre, IconKey, 0)
    requires '"' !in v
    ensures Redact(pre + IconKey + "\"" + v + "\"" + post) == pre + IconKey + "\"" + IconMark + "\"" + post
  {
    var head := pre + IconKey + "\"";
    RedactAfterHead(pre, head, v, post);
    assert head + v + "\"" + post == pre + IconKey + "\"" + v + "\"" + post;
    assert head + IconMark + ("\"" + post) == pre + IconKey + "\"" + IconMark + "\"" + post;
  }

  /** Truncation: a text over `Limit` characters becomes its first and last
      `Limit / 2` characters around `"..."`. */
  function Truncate(t: string): (r: string)
    ensures |t| <= Limit ==> r == t
    ensures |t| > Limit ==> |r| == Limit + 3
    ensures |t| > Limit ==>
      r[..Limit / 2] == t[..Limit / 2] && r[Limit / 2..Limit / 2 + 3] == "..." && r[Limit / 2 + 3..] == t[|t| - Limit / 2..]
  {
    if |t| > Limit then
      var r := Substring(t, 0, Limit / 2) + "..." + Substring(t, |t| - Limit / 2, |t|);
      assert r[..Limit / 2] == t[..Limit / 2];
      r
    else t
  }

  /** Truncating again changes nothing: a truncated text is 503 characters, so it is
      cut again, but its first 250 and last 250 characters are the ones already kept. */
  lemma TruncateIdempotent(t: string)
    ensures Truncate(Truncate(t)) == Truncate(t)
  {
  }

  /** One message as it appears in the output line. */
  function Format<V>(m: Message<V>, stringify: V -> string): (r: string)
    ensures |r| <= Limit + 3
    ensures m.Str? ==> r == Truncate(Redact(m.s))
    ensures m.Value? ==> r == Truncate(Redact(stringify(m.v)))
    ensures m.Str? && NoneFrom(m.s, IconKey, 0) && |m.s| <= Limit ==> r == m.s
  {
    Truncate(Redact(MessageText(m, stringify)))
  }

  /** A message whose text carries a string `icon` value as its first key is
      printed with that value replaced by the marker, then cut to length. */
  lemma FormatHidesIconValue<V>(m: Message<V>, stringify: V -> string, pre: string, v: string, post: string)
    requires MessageText(m, stringify) == pre + IconKey + "\"" + v + "\"" + post
    requires NoneFrom(pre, IconKey, 0)
    requires '"' !in v
    ensures Format(m, stringify) == Truncate(pre + IconKey + "\"" + IconMark + "\"" + post)
  {
    RedactHidesIconValue(pre, v, post);
  }

  /** `msgs.map(...)`: every message formatted, in order. */
  function FormatAll<V>(msgs: seq<Message<V>>, stringify: V -> string): (r: seq<string>)
    ensures |r| == |msgs|
    ensures forall i :: 0 <= i < |msgs| ==> r[i] == Format(msgs[i], stringify)
  {
    seq(|msgs|, i requires 0 <= i < |msgs| => Format(msgs[i], stringify))
  }

  /** `_debug(msgType, ...msgs)`: the message type, a colon, then the
      formatted messages separated by single spaces. */
  function DebugLine<V>(msgType: string, msgs: seq<Message<V>>, stringify: V -> string): (r: string)
    ensures |r| >= |msgType| + 1 && r[..|msgType| + 1] == msgType + ":"
    ensures msgs == [] ==> r == msgType + ":"
    ensures |msgs| == 1 ==> r == msgType + ":" + Format(msgs[0], stringify)
  {
    var r := msgType + ":" + Join(FormatAll(msgs, stringify), " ");
    assert r[..|msgType| + 1] == msgType + ":";
    r
  }

  /** Messages appear in argument order: one more argument adds one space and its text at the end. */
  lemma DebugLineAppend<V>(msgType: string, msgs: seq<Message<V>>, m: Message<V>, stringify: V -> string)
    requires msgs != []
    ensures DebugLine(msgType, msgs + [m], stringify) == DebugLine(msgType, msgs, stringify) + " " + Format(m, stringify)
  {
    var front := FormatAll(msgs, stringify);
    var last := [Format(m, stringify)];
    assert FormatAll(msgs + [m], stringify) == front + last;
    JoinConcat(front, last, " ");
  }
}
