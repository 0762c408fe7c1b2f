/**
 * `POST /api/generate` (src/app/api/generate/route.ts): derive a child record from
 * a parent and the chat log of one session. The model's reply arrives as a string;
 * it is cleaned of Markdown code fences, trimmed, cut down to its outermost `{…}`
 * span, and handed to `JSON.parse`, which stays an abstract partial function here.
 */
module Generate {
  import opened KnowledgeTypes

  // ---------------------------------------------------------------------------
  // Reply cleaning
  // ---------------------------------------------------------------------------

  const Fence: string := "```"

  /** `s` has a code fence starting at index `i`. */
  predicate FenceAt(s: string, i: int) {
    0 <= i && i + 3 <= |s| && s[i] == '`' && s[i + 1] == '`' && s[i + 2] == '`'
  }

  /** No three backticks in a row anywhere in `s`. */
  ghost predicate NoFence(s: string) {
    forall i :: !FenceAt(s, i)
  }

  /** The letters of "json", matched ASCII case-insensitively as the `i` flag does. */
  predicate IsJsonTag(s: string) {
    |s| == 4
    && (s[0] == 'j' || s[0] == 'J') && (s[1] == 's' || s[1] == 'S')
    && (s[2] == 'o' || s[2] == 'O') && (s[3] == 'n' || s[3] == 'N')
  }

  /** How many characters a match of ```` /```json\n?/i ```` at the start of `s` covers, or 0 for no match. */
  function JsonFenceLength(s: string): (n: nat)
    ensures n == 0 || n == 7 || n == 8
    ensures n <= |s|
  {
    if FenceAt(s, 0) && |s| >= 7 && IsJsonTag(s[3..7]) then
      (if |s| > 7 && s[7] == '\n' then 8 else 7)
    else 0
  }

  /** How many characters a match of ```` /```\n?/ ```` at the start of `s` covers, or 0 for no match. */
  function FenceLength(s: string): (n: nat)
    ensures n == 0 || n == 3 || n == 4
    ensures n <= |s|
  {
    if FenceAt(s, 0) then (if |s| > 3 && s[3] == '\n' then 4 else 3) else 0
  }

  /** `s.replace(/```json\n?/gi, "")`: scanning left to right, drop every match and keep every other character. */
  function StripJsonFences(s: string): (r: string)
    ensures |r| <= |s|
  {
    if s == [] then []
    else if JsonFenceLength(s) > 0 then StripJsonFences(s[JsonFenceLength(s)..])
    else [s[0]] + StripJsonFences(s[1..])
  }

  /** `s.replace(/```\n?/g, "")`. */
  function StripFences(s: string): (r: string)
    ensures |r| <= |s|
  {
    if s == [] then []
    else if FenceLength(s) > 0 then StripFences(s[FenceLength(s)..])
    else [s[0]] + StripFences(s[1..])
  }

  /** If the stripped text starts with a backtick, so does the text it came from. */
  lemma {:induction false} StripFencesHead(s: string)
    requires StripFences(s) != [] && StripFences(s)[0] == '`'
    ensures s != [] && s[0] == '`'
  {
    if s != [] && FenceLength(s) == 0 {
      assert StripFences(s) == [s[0]] + StripFences(s[1..]);
    }
  }

  /** If the stripped text starts with two backticks, so does the text it came from. */
  lemma {:induction false} StripFencesHead2(s: string)
    ensures |StripFences(s)| >= 2 && StripFences(s)[0] == '`' && StripFences(s)[1] == '`' ==>
      |s| >= 2 && s[0] == '`' && s[1] == '`'
  {
    if |StripFences(s)| >= 2 && StripFences(s)[0] == '`' && StripFences(s)[1] == '`' && FenceLength(s) == 0 {
      var rest := StripFences(s[1..]);
      assert StripFences(s) == [s[0]] + rest;
      assert rest[0] == '`';
      StripFencesHead(s[1..]);
    }
  }

  /**
   * Removing fences left to right cannot create a new one: no three kept backticks
   * can meet, since the first of them would itself have started a match.
   */
  lemma {:induction false} StripFencesNoFence(s: string)
    ensures NoFence(StripFences(s))
    decreases |s|
  {
    if s != [] {
      if FenceLength(s) > 0 {
        StripFencesNoFence(s[FenceLength(s)..]);
      } else {
        var rest := StripFences(s[1..]);
        StripFencesNoFence(s[1..]);
        var r := [s[0]] + rest;
        assert StripFences(s) == r;
        StripFencesHead2(s[1..]);
        forall i ensures !FenceAt(r, i) {
          assert i > 0 && FenceAt(r, i) ==> FenceAt(rest, i - 1);
        }
      }
    }
  }

  /** A string without backticks passes through either fence pass unchanged, also in front of anything else. */
  lemma {:induction false} StripPlainPrefix(a: string, t: string)
    requires '`' !in a
    ensures StripJsonFences(a + t) == a + StripJsonFences(t)
    ensures StripFences(a + t) == a + StripFences(t)
  {
    if a != [] {
      assert a[0] in a && (a + t)[0] == a[0];
      assert '`' !in a[1..];
      assert (a + t)[1..] == a[1..] + t;
      StripPlainPrefix(a[1..], t);
      assert a == [a[0]] + a[1..];
      assert StripFences(a + t) == [a[0]] + StripFences(a[1..] + t);
      assert StripJsonFences(a + t) == [a[0]] + StripJsonFences(a[1..] + t);
    } else {
      assert a + t == t;
    }
  }

  /** JavaScript's `WhiteSpace` and `LineTerminator` characters, which `trim` removes. */
  predicate IsJsSpace(c: char) {
    var n := c as int;
    n == 0x09 || n == 0x0A || n == 0x0B || n == 0x0C || n == 0x0D || n == 0x20
    || n == 0xA0 || n == 0x1680 || (0x2000 <= n <= 0x200A) || n == 0x2028 || n == 0x2029
    || n == 0x202F || n == 0x205F || n == 0x3000 || n == 0xFEFF
  }

  predicate AllSpace(s: string) {
    forall i :: 0 <= i < |s| ==> IsJsSpace(s[i])
  }

  /** `trimStart`: drop the leading whitespace. */
  function TrimStart(s: string): (r: string)
    ensures r == [] || !IsJsSpace(r[0])
    ensures |r| <= |s| && r == s[|s| - |r|..] && AllSpace(s[..|s| - |r|])
  {
    if s != [] && IsJsSpace(s[0]) then TrimStart(s[1..]) else s
  }

  /** `trimEnd`: drop the trailing whitespace. */
  function TrimEnd(s: string): (r: string)
    ensures r == [] || !IsJsSpace(r[|r| - 1])
    ensures |r| <= |s| && r == s[..|r|] && AllSpace(s[|r|..])
  {
    if s != [] && IsJsSpace(s[|s| - 1]) then TrimEnd(s[..|s| - 1]) else s
  }

  /** `trim`. */
  function Trim(s: string): string {
    TrimEnd(TrimStart(s))
  }

  /**
   * `trim` keeps the middle of its input: the input is whitespace, then the result,
   * then whitespace, and the result neither starts nor ends with whitespace.
   */
  lemma TrimSplits(s: string)
    ensures var r := Trim(s);
      && (r == [] || (!IsJsSpace(r[0]) && !IsJsSpace(r[|r| - 1])))
      && exists i :: SplitAt(s, r, i)
  {
    var t := TrimStart(s);
    var r := TrimEnd(t);
    var i := |s| - |t|;
    assert SplitAt(s, r, i) by {
      assert r == s[i..i + |r|];
      assert s[i + |r|..] == t[|r|..];
    }
    assert r == [] || r[0] == t[0];
  }

  /** `s` is whitespace, then `r` starting at index `i`, then whitespace. */
  predicate SplitAt(s: string, r: string, i: int) {
    0 <= i && i + |r| <= |s| && r == s[i..i + |r|] && AllSpace(s[..i]) && AllSpace(s[i + |r|..])
  }

  /** Text already free of surrounding whitespace is left as it is. */
  lemma TrimKeepsTrimmed(s: string)
    requires s == [] || (!IsJsSpace(s[0]) && !IsJsSpace(s[|s| - 1]))
    ensures Trim(s) == s
  {
  }

  /** The index of the first `c` in `s`, if any. */
  function IndexOf(s: string, c: char): (r: Option<nat>)
    ensures r.None? <==> c !in s
    ensures r.Some? ==> r.value < |s| && s[r.value] == c
    ensures r.Some? ==> forall k :: 0 <= k < r.value ==> s[k] != c
  {
    if s == [] then None
    else if s[0] == c then Some(0)
    else match IndexOf(s[1..], c)
      case None => None
      case Some(i) => Some(i + 1)
  }

  /** The index of the last `c` in `s`, if any. */
  function LastIndexOf(s: string, c: char): (r: Option<nat>)
    ensures r.None? <==> c !in s
    ensures r.Some? ==> r.value < |s| && s[r.value] == c
    ensures r.Some? ==> forall k :: r.value < k < |s| ==> s[k] != c
  {
    if s == [] then None
    else if s[|s| - 1] == c then Some(|s| - 1)
    else
      var r := LastIndexOf(s[..|s| - 1], c);
      if r.Some? then r else None
  }

  /**
   * `reply.match(/\{[\s\S]*\}/)`: the text from the first `{` to the last `}`, when
   * some `}` follows the first `{`; otherwise no match and the reply stays as it is.
   */
  function JsonSpan(s: string): string {
    var open := IndexOf(s, '{');
    var close := LastIndexOf(s, '}');
    if open.Some? && close.Some? && open.value < close.value then s[open.value..close.value + 1] else s
  }

  /**
   * When there is a match, the span starts with `{`, ends with `}`, no `{` precedes it
   * and no `}` follows it; when there is none, the reply is unchanged.
   */
  lemma JsonSpanBounds(s: string)
    ensures var r := JsonSpan(s);
      if exists i, j :: 0 <= i < j < |s| && s[i] == '{' && s[j] == '}' then
        exists i, j :: SpanAt(s, r, i, j)
      else r == s
  {
    var open := IndexOf(s, '{');
    var close := LastIndexOf(s, '}');
    if open.Some? && close.Some? && open.value < close.value {
      assert SpanAt(s, JsonSpan(s), open.value, close.value);
    } else {
      forall i, j | 0 <= i < j < |s| && s[i] == '{' ensures s[j] != '}' {
        assert s[i] in s;
        assert s[j] in s;
      }
    }
  }

  /** `r` runs from the first `{` of `s`, at `i`, to its last `}`, at `j`. */
  predicate SpanAt(s: string, r: string, i: int, j: int) {
    && 0 <= i < j < |s| && r == s[i..j + 1] && s[i] == '{' && s[j] == '}'
    && (forall k :: 0 <= k < i ==> s[k] != '{') && (forall k :: j < k < |s| ==> s[k] != '}')
  }

  /** `response.text || "{}"`: a missing or empty reply reads as an empty object. */
  function ReplyText(text: Option<string>): (reply: string)
    ensures reply != []
  {
    if Truthy(text) then text.value else "{}"
  }

  /** The whole cleaning chain applied to the reply before `JSON.parse`. */
  function CleanReply(reply: string): string {
    JsonSpan(Trim(StripFences(StripJsonFences(reply))))
  }

  /** A substring of fence-free text is fence-free. */
  lemma NoFenceSlice(s: string, i: nat, j: nat)
    requires NoFence(s) && i <= j <= |s|
    ensures NoFence(s[i..j])
  {
    forall k ensures !FenceAt(s[i..j], k) {
      assert FenceAt(s[i..j], k) ==> FenceAt(s, i + k);
    }
  }

  /** Trimming fence-free text leaves it fence-free. */
  lemma TrimNoFence(a: string)
    requires NoFence(a)
    ensures NoFence(Trim(a))
  {
    var t := TrimStart(a);
    var r := TrimEnd(t);
    var i := |a| - |t|;
    assert t == a[i..|a|];
    NoFenceSlice(a, i, |a|);
    assert r == t[0..|r|];
    NoFenceSlice(t, 0, |r|);
  }

  /** Cutting out the `{…}` span of fence-free text leaves it fence-free. */
  lemma JsonSpanNoFence(t: string)
    requires NoFence(t)
    ensures NoFence(JsonSpan(t))
  {
    var open := IndexOf(t, '{');
    var close := LastIndexOf(t, '}');
    if open.Some? && close.Some? && open.value < close.value {
      NoFenceSlice(t, open.value, close.value + 1);
    }
  }

  /** What reaches `JSON.parse` never contains a code fence. */
  lemma CleanReplyHasNoFence(reply: string)
    ensures NoFence(CleanReply(reply))
  {
    var a := StripFences(StripJsonFences(reply));
    StripFencesNoFence(StripJsonFences(reply));
    TrimNoFence(a);
    JsonSpanNoFence(Trim(a));
  }

  /**
   * A reply wrapped as a Markdown `json` code block, around an object literal with no
   * backticks and no surrounding whitespace, cleans to exactly that object literal.
   */
  lemma FencedReplyRoundTrip(body: string)
    requires |body| >= 2 && body[0] == '{' && body[|body| - 1] == '}'
    requires '`' !in body
    ensures CleanReply("```json\n" + body + "\n```") == body
  {
    var reply := "```json\n" + body + "\n```";
    var p := body + "\n";
    FencesStripped(body);
    TrimNewline(body);
    WholeObjectIsSpan(body);
    assert CleanReply(reply) == JsonSpan(Trim(p));
  }

  /** Both fence passes together leave the body and the newline before the closing fence. */
  lemma FencesStripped(body: string)
    requires '`' !in body
    ensures StripFences(StripJsonFences("```json\n" + body + "\n```")) == body + "\n"
  {
    var p := body + "\n";
    assert '`' !in p;
    assert "```json\n" + body + "\n```" == "```json\n" + p + Fence;
    OpeningFenceStripped(p);
    ClosingFenceStripped(p);
  }

  /** Trimming removes the newline after an object literal and nothing else. */
  lemma TrimNewline(body: string)
    requires |body| >= 2 && body[0] == '{' && body[|body| - 1] == '}'
    ensures Trim(body + "\n") == body
  {
    var p := body + "\n";
    assert TrimStart(p) == p;
    assert p[..|p| - 1] == body;
    assert TrimEnd(p) == TrimEnd(body);
  }

  /** The first pass removes the opening ```` ```json ```` line and nothing else. */
  lemma OpeningFenceStripped(p: string)
    requires '`' !in p
    ensures StripJsonFences("```json\n" + p + Fence) == p + Fence
  {
    var reply := "```json\n" + p + Fence;
    assert StripJsonFences(reply) == StripJsonFences(p + Fence) by {
      assert JsonFenceLength(reply) == 8;
      assert reply[8..] == p + Fence;
    }
    assert StripJsonFences(p + Fence) == p + StripJsonFences(Fence) by {
      StripPlainPrefix(p, Fence);
    }
    JsonPassKeepsFence();
  }

  /** A bare fence is not a ```` ```json ```` match, so the first pass keeps it. */
  lemma JsonPassKeepsFence()
    ensures StripJsonFences(Fence) == Fence
  {
    assert JsonFenceLength(Fence) == 0;
    assert StripJsonFences(Fence) == [Fence[0]] + StripJsonFences(Fence[1..]);
    assert StripJsonFences(Fence[1..]) == [Fence[1]] + StripJsonFences(Fence[2..]);
  }

  /** The second pass removes the closing fence. */
  lemma ClosingFenceStripped(p: string)
    requires '`' !in p
    ensures StripFences(p + Fence) == p
  {
    assert StripFences(p + Fence) == p + StripFences(Fence) by {
      StripPlainPrefix(p, Fence);
    }
    assert StripFences(Fence) == [] by {
      assert FenceLength(Fence) == 3;
    }
    assert p + [] == p;
  }

  /** An object literal with no other text is its own span. */
  lemma WholeObjectIsSpan(body: string)
    requires |body| >= 2 && body[0] == '{' && body[|body| - 1] == '}'
    ensures JsonSpan(body) == body
  {
    assert IndexOf(body, '{') == Some(0);
    assert LastIndexOf(body, '}') == Some(|body| - 1);
    assert body[0..|body|] == body;
  }

  // ---------------------------------------------------------------------------
  // The derived record
  // ---------------------------------------------------------------------------

  /**
   * What `JSON.parse` returns, as far as the handler looks at it: `null`, or any other
   * value whose `title` and `description` properties are strings or absent.
   */
  datatype Parsed = Null | Value(title: Option<string>, description: Option<string>)

  /** The handler's answer: the derived record, or the parse-failure error. */
  datatype Outcome = Generated(knowledge: Knowledge) | ParseFailed(error: string)

  const FallbackTitle: string := "대화 없이 전해진 지식"
  /** Split into short literals, as the seed descriptions are, to keep the proofs that mention it cheap. */
  const FallbackDescription: string :=
    "이 지식은" + " 충분한 " + "대화 없이" + " 전달되었" + "다.\n\n" + "설명자가 " + "말을 하지"
    + " 않아 학" + "습자는 아" + "무것도 배" + "우지 못했" + "다. 침묵" + " 속에서 " + "지식은 사"
    + "라졌다."
  const DefaultTitle: string := "알 수 없는 지식"
  const DefaultDescription: string := "새로운 지식 생성에 실패했습니다."
  const ParseError: string := "AI 응답 파싱에 실패했습니다. 다시 시도해주세요."

  /** The decimal digits of `n`, as a template literal renders a non-negative integer. */
  function Decimal(n: nat): (s: string)
    ensures |s| >= 1
    ensures forall i :: 0 <= i < |s| ==> '0' <= s[i] <= '9'
  {
    var d := ('0' as int + n % 10) as char;
    if n < 10 then [d] else Decimal(n / 10) + [d]
  }

  /** The value of a string of decimal digits. */
  function DigitsValue(s: string): nat
    requires forall i :: 0 <= i < |s| ==> '0' <= s[i] <= '9'
  {
    if s == [] then 0 else DigitsValue(s[..|s| - 1]) * 10 + (s[|s| - 1] as int - '0' as int)
  }

  /** Rendering a timestamp in decimal loses nothing: the digits read back as the number. */
  lemma {:induction false} DecimalRoundTrip(n: nat)
    ensures DigitsValue(Decimal(n)) == n
  {
    var s := Decimal(n);
    var d := s[|s| - 1];
    assert d as int - '0' as int == n % 10;
    if n >= 10 {
      DecimalRoundTrip(n / 10);
      assert s[..|s| - 1] == Decimal(n / 10);
      assert DigitsValue(s) == DigitsValue(Decimal(n / 10)) * 10 + n % 10;
    } else {
      assert s[..|s| - 1] == [];
    }
  }

  /** `!chatLog || chatLog.length === 0`. */
  predicate EmptyLog(chatLog: Option<seq<ChatMessage>>) {
    chatLog.None? || |chatLog.value| == 0
  }

  /**
   * The handler after the model call. `now` is `Date.now()`, `createdAt` the ISO
   * time, `text` the model's `response.text`, `parse` stands for `JSON.parse`
   * (`None` where it throws), and `idSuffix`/`sessionSuffix` are the two
   * `Math.random().toString(36).substr(2, 9)` strings.
   */
  function Derive(orig: Knowledge, chatLog: Option<seq<ChatMessage>>, now: nat, createdAt: string,
                  text: Option<string>, parse: string -> Option<Parsed>,
                  idSuffix: string, sessionSuffix: string): Outcome
  {
    if EmptyLog(chatLog) then
      Generated(Knowledge("gen-" + Decimal(now), FallbackTitle, orig.category, FallbackDescription,
                          Some(orig.id), orig.generation + 1, createdAt, "session-empty",
                          Some([]), 0, 0))
    else
      match parse(CleanReply(ReplyText(text)))
      case None => ParseFailed(ParseError)
      case Some(Null) => ParseFailed(ParseError)
      case Some(Value(title, description)) =>
        Generated(Knowledge("gen-" + Decimal(now) + "-" + idSuffix,
                            if Truthy(title) then title.value else DefaultTitle,
                            orig.category,
                            if Truthy(description) then description.value else DefaultDescription,
                            Some(orig.id), orig.generation + 1, createdAt, "session-" + sessionSuffix,
                            chatLog, 0, 0))
  }

  /**
   * Every derived record is a child of the original: it links to the original's id,
   * sits one generation lower, keeps the category, starts with zero counters and an
   * id beginning with "gen-".
   */
  lemma DerivedIsChild(orig: Knowledge, chatLog: Option<seq<ChatMessage>>, now: nat, createdAt: string,
                       text: Option<string>, parse: string -> Option<Parsed>, idSuffix: string, sessionSuffix: string)
    ensures var o := Derive(orig, chatLog, now, createdAt, text, parse, idSuffix, sessionSuffix);
      o.Generated? ==>
        && o.knowledge.parentId == Some(orig.id)
        && o.knowledge.generation == orig.generation + 1
        && o.knowledge.category == orig.category
        && o.knowledge.timesShown == 0 && o.knowledge.childrenCount == 0
        && |o.knowledge.id| > 4 && o.knowledge.id[..4] == "gen-"
        && o.knowledge.createdAt == createdAt
  {
    var stamp := "gen-" + Decimal(now);
    assert stamp[..4] == "gen-";
    assert (stamp + "-" + idSuffix)[..4] == stamp[..4];
  }

  /** A missing or empty chat log always gives the fixed fallback child, whatever the model would have said. */
  lemma EmptyLogFallback(orig: Knowledge, chatLog: Option<seq<ChatMessage>>, now: nat, createdAt: string,
                         text: Option<string>, parse: string -> Option<Parsed>, idSuffix: string, sessionSuffix: string)
    requires EmptyLog(chatLog)
    ensures var o := Derive(orig, chatLog, now, createdAt, text, parse, idSuffix, sessionSuffix);
      && o.Generated?
      && o.knowledge.title == FallbackTitle && o.knowledge.description == FallbackDescription
      && o.knowledge.createdBy == "session-empty" && o.knowledge.chatLog == Some([])
      && o.knowledge.id == "gen-" + Decimal(now)
  {
  }

  /**
   * With a non-empty chat log, the outcome is an error exactly when `JSON.parse` of
   * the cleaned reply throws or yields `null`; otherwise the child keeps the chat log
   * it was given and takes the parsed title and description, each replaced by its
   * fixed default when absent or empty.
   */
  lemma ParsedChild(orig: Knowledge, log: seq<ChatMessage>, now: nat, createdAt: string,
                    text: Option<string>, parse: string -> Option<Parsed>, idSuffix: string, sessionSuffix: string)
    requires |log| > 0
    ensures var o := Derive(orig, Some(log), now, createdAt, text, parse, idSuffix, sessionSuffix);
      var p := parse(CleanReply(ReplyText(text)));
      && (o.ParseFailed? <==> p.None? || p.value.Null?)
      && (o.ParseFailed? ==> o.error == ParseError)
      && (o.Generated? ==>
            && o.knowledge.chatLog == Some(log)
            && o.knowledge.title == (if Truthy(p.value.title) then p.value.title.value else DefaultTitle)
            && o.knowledge.title != ""
            && o.knowledge.description == (if Truthy(p.value.description) then p.value.description.value else DefaultDescription)
            && o.knowledge.description != ""
            && o.knowledge.id == "gen-" + Decimal(now) + "-" + idSuffix
            && o.knowledge.createdBy == "session-" + sessionSuffix)
  {
  }
}
