/**
 * The string side of the identifier colorizer: the test of a message against
 * the pattern `^\[.{4,8}\]`, the extraction of the identifier that precedes
 * the first `]`, the rebuilt message with colour codes around the bracketed
 * identifier, and the inverse that strips those codes again.
 */
module IdPattern {
  import opened Wrappers
  import opened Tables

  /** The characters a regular-expression `.` does not match without the `s` flag. */
  predicate IsLineTerminator(ch: char) {
    ch == '\n' || ch == '\r' || ch == '\U{2028}' || ch == '\U{2029}'
  }

  /** `msg` starts with `[`, then `n` characters that `.` matches, then `]`. */
  predicate MatchesWithWidth(msg: string, n: nat) {
    |msg| >= n + 2 && msg[0] == '[' && msg[n + 1] == ']' &&
    forall i :: 1 <= i <= n ==> !IsLineTerminator(msg[i])
  }

  /**
   * The pattern test. Since `.` also matches `]`, the pattern succeeds when
   * ANY of the widths 4 to 8 is followed by a `]`, not only the first `]`.
   */
  predicate MatchesIdPattern(msg: string)
    ensures MatchesIdPattern(msg) ==> 6 <= |msg| && msg[0] == '[' && ']' in msg[1..]
  {
    exists n :: 4 <= n <= 8 && MatchesWithWidth(msg, n)
  }

  /** The position of the first `ch` in `s`, or -1 when there is none. */
  function IndexOf(s: string, ch: char): (r: int)
    ensures -1 <= r < |s|
    ensures r == -1 <==> ch !in s
    ensures 0 <= r ==> s[r] == ch && ch !in s[..r]
  {
    if |s| == 0 then -1
    else if s[0] == ch then 0
    else
      var k := IndexOf(s[1..], ch);
      assert s[1..][..k + 1] == s[1..k + 2] by { assert k + 1 <= |s[1..]| || k == -1; }
      if k < 0 then -1 else k + 1
  }

  /** When `ch` does not occur in `p`, the first `ch` of `p + [ch] + q` is right after `p`. */
  lemma IndexOfAfterPrefix(p: string, ch: char, q: string)
    requires ch !in p
    ensures IndexOf(p + [ch] + q, ch) == |p|
  {
    var s := p + [ch] + q;
    var r := IndexOf(s, ch);
    assert s[|p|] == ch;
  }

  /** The position of the first `]` in a matching message (`bracketIndex`). */
  function BracketIndex(msg: string): (k: nat)
    requires MatchesIdPattern(msg)
    ensures 1 <= k <= 9 && k < |msg|
    ensures msg[k] == ']' && ']' !in msg[..k]
    ensures forall i :: 1 <= i < k ==> !IsLineTerminator(msg[i])
  {
    var n :| 4 <= n <= 8 && MatchesWithWidth(msg, n);
    var k := IndexOf(msg, ']');
    assert msg[n + 1] == ']';
    assert k <= n + 1;
    k
  }

  /**
   * The identifier of a matching message: the text between the opening `[`
   * and the first `]`. It may be shorter than four characters.
   */
  function ExtractId(msg: string): (id: string)
    requires MatchesIdPattern(msg)
    ensures |id| <= 8
    ensures ']' !in id
    ensures forall i :: 0 <= i < |id| ==> !IsLineTerminator(id[i])
    ensures |id| + 2 <= |msg| && msg[..|id| + 2] == "[" + id + "]"
  {
    var k := BracketIndex(msg);
    var id := msg[1..k];
    assert forall i :: 0 <= i < |id| ==> id[i] == msg[..k][i + 1];
    assert msg[..k + 1] == "[" + id + "]";
    id
  }

  /** A message starting with `[id]` for an `id` without `]` has exactly that identifier. */
  lemma ExtractIdUnique(msg: string, id: string)
    requires MatchesIdPattern(msg)
    requires ']' !in id && |id| + 2 <= |msg| && msg[..|id| + 2] == "[" + id + "]"
    ensures ExtractId(msg) == id
  {
    var e := ExtractId(msg);
    var k := BracketIndex(msg);
    assert msg[|id| + 1] == ']';
    assert msg[|e| + 1] == ']';
    assert forall i :: 0 <= i < |id| ==> id[i] == msg[i + 1] == e[i];
  }

  /** The rest of a matching message after its first `]`. */
  function Remainder(msg: string): (rest: string)
    requires MatchesIdPattern(msg)
    ensures msg == "[" + ExtractId(msg) + "]" + rest
  {
    var k := BracketIndex(msg);
    assert msg == msg[..k + 1] + msg[k + 1..];
    msg[k + 1..]
  }

  /**
   * The rebuilt message: the original message with the opening code put in
   * front and the closing code inserted right after the identifier's `]`.
   */
  function Render(msg: string, c: ColorPair): (out: string)
    requires MatchesIdPattern(msg)
    ensures |out| == |c.open| + |msg| + |c.close|
    ensures var k := |ExtractId(msg)| + 2;
      out == c.open + msg[..k] + c.close + msg[k..]
  {
    var id := ExtractId(msg);
    var rest := Remainder(msg);
    assert msg[..|id| + 2] == "[" + id + "]" && msg[|id| + 2..] == rest;
    assert c.open + "[" + id + "]" == c.open + ("[" + id + "]");
    c.open + "[" + id + "]" + c.close + rest
  }

  /**
   * Removes an opening code `c.open` at the front and a closing code
   * `c.close` right after the first `]` that follows it; None when either
   * code is not where it should be.
   */
  function StripColor(out: string, c: ColorPair): (r: Option<string>)
    ensures r.Some? ==> |r.value| + |c.open| + |c.close| == |out|
  {
    if |out| < |c.open| || out[..|c.open|] != c.open then None
    else
      var body := out[|c.open|..];
      var k := IndexOf(body, ']');
      if k < 0 || |body| < k + 1 + |c.close| || body[k + 1..k + 1 + |c.close|] != c.close then None
      else Some(body[..k + 1] + body[k + 1 + |c.close|..])
  }

  /** An identifier that the pattern accepts between brackets. */
  predicate WellFormedId(id: string) {
    4 <= |id| <= 8 && ']' !in id && forall i :: 0 <= i < |id| ==> !IsLineTerminator(id[i])
  }

  /**
   * A message built as `[id]rest`, for an identifier of 4 to 8 characters
   * without `]` or line terminators, matches; its identifier is `id`, its
   * remainder `rest`.
   */
  lemma BracketedMessage(id: string, rest: string, c: ColorPair)
    requires WellFormedId(id)
    ensures MatchesIdPattern("[" + id + "]" + rest)
    ensures ExtractId("[" + id + "]" + rest) == id
    ensures Render("[" + id + "]" + rest, c) == c.open + "[" + id + "]" + c.close + rest
  {
    var msg := "[" + id + "]" + rest;
    assert MatchesWithWidth(msg, |id|) by {
      forall i | 1 <= i <= |id| ensures !IsLineTerminator(msg[i]) {
        assert msg[i] == id[i - 1];
      }
    }
    assert msg[..|id| + 2] == "[" + id + "]";
    ExtractIdUnique(msg, id);
    assert msg == "[" + id + "]" + Remainder(msg);
    assert Remainder(msg) == msg[|id| + 2..] == rest;
  }

  /** Stripping the colour codes from `c.open + "[" + id + "]" + c.close + rest` leaves `"[" + id + "]" + rest`. */
  lemma StripColored(id: string, rest: string, c: ColorPair)
    requires ']' !in c.open && ']' !in id
    ensures StripColor(c.open + "[" + id + "]" + c.close + rest, c) == Some("[" + id + "]" + rest)
  {
    var out := c.open + "[" + id + "]" + c.close + rest;
    var body := "[" + id + "]" + c.close + rest;
    assert out == c.open + body;
    assert out[..|c.open|] == c.open && out[|c.open|..] == body;
    assert body == ("[" + id) + [']'] + (c.close + rest);
    IndexOfAfterPrefix("[" + id, ']', c.close + rest);
    var k := |id| + 1;
    assert body[k + 1..k + 1 + |c.close|] == c.close;
    assert body[..k + 1] == "[" + id + "]";
    assert body[k + 1 + |c.close|..] == rest;
  }

  /** Stripping the colour codes from the rebuilt message gives back the message. */
  lemma StripRender(msg: string, c: ColorPair)
    requires MatchesIdPattern(msg)
    requires ']' !in c.open
    ensures StripColor(Render(msg, c), c) == Some(msg)
  {
    StripColored(ExtractId(msg), Remainder(msg), c);
  }

  /** The identifier can be empty: `.` matches the `]` that ends it. */
  lemma EmptyIdExample()
    ensures MatchesIdPattern("[]abcd]x")
    ensures ExtractId("[]abcd]x") == ""
    ensures Remainder("[]abcd]x") == "abcd]x"
  {
    assert MatchesWithWidth("[]abcd]x", 5);
    ExtractIdUnique("[]abcd]x", "");
  }

  /** A message that does not start with `[` never matches. */
  lemma NoBracketNoMatch(msg: string)
    requires |msg| == 0 || msg[0] != '['
    ensures !MatchesIdPattern(msg)
  {
  }
}
