/** The line recogniser both scripts share: a stripped line is matched against

      ^(\S+) \S+ \S+ \[(.*?)\] "(\S+) (\S+) (\S+)" (\d+) \d+ ".*?" ".*?"$

    with Python's `re.match`. Every greedy `\S+` and `\d+` here is followed by
    a character its class excludes (a space, or the `" ` after the protocol),
    so backtracking can only shorten it to a failure: each of those groups is
    forced. The two kinds of lazy `.*?` are not: the engine tries the shortest
    timestamp first and lengthens it one character (never a newline) at a time
    until the rest of the pattern matches, and likewise for the referrer. The
    recogniser below is written in exactly that order. */
module LogLine {
  import opened Wrappers
  import opened Text

  /** The eleven segments the pattern cuts a line into. Groups 1 to 6 are
      `ip`, `timestamp`, `method`, `path`, `protocol` and `status`; the pattern
      also fixes the uncaptured `ident`, `authUser`, `size`, `referrer` and
      `userAgent` segments, kept here so that a match can be reassembled. */
  datatype Parsed = Parsed(ip: string, ident: string, authUser: string, timestamp: string,
                           httpMethod: string, path: string, protocol: string,
                           status: string, size: string, referrer: string, userAgent: string)

  /** The segments after the timestamp's closing bracket. */
  datatype Tail = Tail(httpMethod: string, path: string, protocol: string,
                       status: string, size: string, referrer: string, userAgent: string)

  /** A leading field and the text after its terminator. */
  datatype Split = Split(field: string, rest: string)

  /** The segments after the request: status, size, referrer and user agent. */
  datatype Trailer = Trailer(status: string, size: string, referrer: string, userAgent: string)

  /** The contents of the two trailing quoted fields. */
  datatype Quoted = Quoted(referrer: string, userAgent: string)

  /** The result of the lazy timestamp search: the timestamp and what follows it. */
  datatype Stamped = Stamped(timestamp: string, tail: Tail)

  /** What `\S+` matches. */
  predicate Token(s: string) {
    s != [] && NoSpace(s)
  }

  /** What `\d+` matches. */
  predicate Number(s: string) {
    s != [] && AllDigits(s)
  }

  predicate TailWellFormed(t: Tail) {
    Token(t.httpMethod) && Token(t.path) && Token(t.protocol) && Number(t.status) && Number(t.size)
    && NoNewline(t.referrer) && NoNewline(t.userAgent)
  }

  /** The segments of a line the pattern can match: the `\S+` segments are
      non-empty and free of whitespace, the `\d+` segments are non-empty digit
      strings, and the `.*?` segments hold no newline. */
  predicate WellFormed(p: Parsed) {
    Token(p.ip) && Token(p.ident) && Token(p.authUser) && NoNewline(p.timestamp)
    && TailWellFormed(TailOf(p))
  }

  function TailOf(p: Parsed): Tail {
    Tail(p.httpMethod, p.path, p.protocol, p.status, p.size, p.referrer, p.userAgent)
  }

  function WithTail(ip: string, ident: string, authUser: string, timestamp: string, t: Tail): Parsed {
    Parsed(ip, ident, authUser, timestamp, t.httpMethod, t.path, t.protocol, t.status, t.size,
           t.referrer, t.userAgent)
  }

  /** `"referrer" "userAgent"` */
  function QuotedText(referrer: string, userAgent: string): string {
    "\"" + (referrer + ("\" \"" + (userAgent + "\"")))
  }

  /** `status size "referrer" "userAgent"` */
  function TrailerText(r: Trailer): string {
    r.status + (" " + (r.size + (" " + QuotedText(r.referrer, r.userAgent))))
  }

  function TrailerOf(t: Tail): Trailer {
    Trailer(t.status, t.size, t.referrer, t.userAgent)
  }

  /** `] "method path protocol" status size "referrer" "userAgent"` */
  function TailText(t: Tail): string {
    "] \"" + (t.httpMethod + (" " + (t.path + (" " + (t.protocol + ("\" " + TrailerText(TrailerOf(t))))))))
  }

  /** The line a match was cut from:
      `ip ident authUser [timestamp] "method path protocol" status size "referrer" "userAgent"`. */
  function Reassemble(p: Parsed): string {
    p.ip + (" " + (p.ident + (" " + (p.authUser + (" " + ("[" + (p.timestamp + TailText(TailOf(p)))))))))
  }

  // ---------------------------------------------------------------------
  // Forced segments
  // ---------------------------------------------------------------------

  /** Length of the longest prefix of `s` without whitespace. */
  function NonSpaceLen(s: string): (n: nat)
    ensures n <= |s|
    ensures forall i :: 0 <= i < n ==> !IsSpace(s[i])
    ensures n < |s| ==> IsSpace(s[n])
  {
    if s == [] || IsSpace(s[0]) then 0 else 1 + NonSpaceLen(s[1..])
  }

  /** Length of the longest prefix of `s` made of digits. */
  function DigitLen(s: string): (n: nat)
    ensures n <= |s|
    ensures forall i :: 0 <= i < n ==> IsDigit(s[i])
    ensures n < |s| ==> !IsDigit(s[n])
  {
    if s == [] || !IsDigit(s[0]) then 0 else 1 + DigitLen(s[1..])
  }

  /** `lit` at the front of `s`. */
  function AfterPrefix(s: string, lit: string): (r: Option<string>)
    ensures r.Some? ==> s == lit + r.value
  {
    if |lit| <= |s| && s[..|lit|] == lit then Some(s[|lit|..]) else None
  }

  /** `(\S+) ` at the front of `s`. */
  function SpaceTerminated(s: string): (r: Option<Split>)
    ensures r.Some? ==> Token(r.value.field) && s == r.value.field + (" " + r.value.rest)
  {
    var n := NonSpaceLen(s);
    if 0 < n < |s| && s[n] == ' ' then Some(Split(s[..n], s[n + 1..])) else None
  }

  /** `(\S+)" ` at the front of `s`: the greedy run gives back characters until
      a `"` followed by a space is next, which can only be its own last one. */
  function QuoteTerminated(s: string): (r: Option<Split>)
    ensures r.Some? ==> Token(r.value.field) && s == r.value.field + ("\" " + r.value.rest)
  {
    var n := NonSpaceLen(s);
    if 1 < n < |s| && s[n - 1] == '"' && s[n] == ' ' then Some(Split(s[..n - 1], s[n + 1..])) else None
  }

  /** `(\d+) ` at the front of `s`. */
  function DigitTerminated(s: string): (r: Option<Split>)
    ensures r.Some? ==> Number(r.value.field) && s == r.value.field + (" " + r.value.rest)
  {
    var n := DigitLen(s);
    if 0 < n < |s| && s[n] == ' ' then Some(Split(s[..n], s[n + 1..])) else None
  }

  lemma AfterPrefixOf(lit: string, x: string)
    ensures AfterPrefix(lit + x, lit) == Some(x)
  {
    assert (lit + x)[..|lit|] == lit;
    assert (lit + x)[|lit|..] == x;
  }

  lemma SpaceTerminatedOf(a: string, b: string)
    requires Token(a)
    ensures SpaceTerminated(a + (" " + b)) == Some(Split(a, b))
  {
    var s := a + (" " + b);
    var n := NonSpaceLen(s);
    assert s[|a|] == ' ';
    assert forall i :: 0 <= i < |a| ==> s[i] == a[i];
    assert n == |a|;
    assert s[..|a|] == a;
    assert s[|a| + 1..] == b;
  }

  lemma QuoteTerminatedOf(a: string, b: string)
    requires Token(a)
    ensures QuoteTerminated(a + ("\" " + b)) == Some(Split(a, b))
  {
    var s := a + ("\" " + b);
    var n := NonSpaceLen(s);
    assert s[|a|] == '"' && s[|a| + 1] == ' ';
    assert forall i :: 0 <= i < |a| ==> s[i] == a[i];
    assert n == |a| + 1;
    assert s[..|a|] == a;
    assert s[|a| + 2..] == b;
  }

  lemma DigitTerminatedOf(a: string, b: string)
    requires Number(a)
    ensures DigitTerminated(a + (" " + b)) == Some(Split(a, b))
  {
    var s := a + (" " + b);
    var n := DigitLen(s);
    assert s[|a|] == ' ';
    assert forall i :: 0 <= i < |a| ==> s[i] == a[i];
    assert n == |a|;
    assert s[..|a|] == a;
    assert s[|a| + 1..] == b;
  }

  // ---------------------------------------------------------------------
  // The trailing `".*?" ".*?"$`
  // ---------------------------------------------------------------------

  /** `".*?" ".*?"$` on the whole of `v`. */
  function QuotedPair(v: string): (r: Option<Quoted>)
    ensures r.Some? ==> NoNewline(r.value.referrer) && NoNewline(r.value.userAgent)
                        && v == QuotedText(r.value.referrer, r.value.userAgent)
  {
    if v != [] && v[0] == '"' then LazySeparator(v, 1) else None
  }

  /** The lazy referrer: with `v[1..j]` as referrer, try `" "` at `j` and the
      rest `.*?"$`; on failure take one more character, unless it is a newline. */
  function LazySeparator(v: string, j: nat): (r: Option<Quoted>)
    requires 1 <= j <= |v| && v[0] == '"' && NoNewline(v[1..j])
    ensures r.Some? ==> NoNewline(r.value.referrer) && NoNewline(r.value.userAgent)
                        && v == QuotedText(r.value.referrer, r.value.userAgent)
                        && j <= 1 + |r.value.referrer|
    decreases |v| - j
  {
    if SeparatorAt(v, j) then
      QuotedSplit(v, j);
      Some(Quoted(v[1..j], v[j + 3..|v| - 1]))
    else if j < |v| && v[j] != '\n' then
      SliceExtend(v, 1, j);
      LazySeparator(v, j + 1)
    else
      None
  }

  lemma QuotedSplit(v: string, j: nat)
    requires 1 <= j && j + 4 <= |v| && v[0] == '"' && v[j..j + 3] == "\" \"" && v[|v| - 1] == '"'
    ensures v == QuotedText(v[1..j], v[j + 3..|v| - 1])
  {
    var u := v[j + 3..|v| - 1];
    assert v[j + 3..] == u + "\"";
    assert v[j..] == "\" \"" + (u + "\"");
    assert v[1..] == v[1..j] + ("\" \"" + (u + "\""));
    assert v == [v[0]] + v[1..];
  }

  /** Every way of writing `v` as a quoted pair leads the lazy search to a
      referrer no longer than that one's; when that referrer holds no `"`,
      the search finds exactly that split. */
  lemma {:induction false} LazySeparatorFinds(v: string, j: nat, referrer: string, userAgent: string)
    requires NoNewline(referrer) && NoNewline(userAgent)
    requires v == QuotedText(referrer, userAgent)
    requires 1 <= j <= 1 + |referrer| && NoNewline(v[1..j])
    ensures LazySeparator(v, j).Some?
    ensures |LazySeparator(v, j).value.referrer| <= |referrer|
    ensures (forall i :: j - 1 <= i < |referrer| ==> referrer[i] != '"')
            ==> LazySeparator(v, j) == Some(Quoted(referrer, userAgent))
    decreases 1 + |referrer| - j, 1
  {
    QuotedTextParts(referrer, userAgent);
    if j < 1 + |referrer| {
      LazySeparatorPasses(v, j, referrer, userAgent);
    }
  }

  /** Before the written separator, the search either stops early at a `"`
      of the referrer or moves on by one character. */
  lemma {:induction false} LazySeparatorPasses(v: string, j: nat, referrer: string, userAgent: string)
    requires NoNewline(referrer) && NoNewline(userAgent)
    requires v == QuotedText(referrer, userAgent)
    requires 1 <= j < 1 + |referrer| && NoNewline(v[1..j])
    ensures LazySeparator(v, j).Some?
    ensures |LazySeparator(v, j).value.referrer| <= |referrer|
    ensures (forall i :: j - 1 <= i < |referrer| ==> referrer[i] != '"')
            ==> LazySeparator(v, j) == Some(Quoted(referrer, userAgent))
    decreases 1 + |referrer| - j, 0
  {
    QuotedTextParts(referrer, userAgent);
    assert v[j] == referrer[j - 1];
    if SeparatorAt(v, j) {
      SeparatorFound(v, j);
    } else {
      SeparatorMissed(v, j);
      LazySeparatorFinds(v, j + 1, referrer, userAgent);
    }
  }

  /** `" "` at `j` and `"` at the end, with no newline between. */
  predicate SeparatorAt(v: string, j: nat) {
    j + 4 <= |v| && v[j..j + 3] == "\" \"" && v[|v| - 1] == '"' && NoNewline(v[j + 3..|v| - 1])
  }

  lemma SeparatorFound(v: string, j: nat)
    requires 1 <= j <= |v| && v[0] == '"' && NoNewline(v[1..j]) && SeparatorAt(v, j)
    ensures LazySeparator(v, j) == Some(Quoted(v[1..j], v[j + 3..|v| - 1])) && v[j] == '"'
  {
    assert v[j..j + 3][0] == v[j];
  }

  lemma SeparatorMissed(v: string, j: nat)
    requires 1 <= j < |v| && v[0] == '"' && NoNewline(v[1..j]) && !SeparatorAt(v, j) && v[j] != '\n'
    ensures NoNewline(v[1..j + 1]) && LazySeparator(v, j) == LazySeparator(v, j + 1)
  {
    SliceExtend(v, 1, j);
  }

  /** Where the pieces of a quoted pair lie. */
  lemma QuotedTextParts(referrer: string, userAgent: string)
    ensures var v := QuotedText(referrer, userAgent); var e := 1 + |referrer|;
            |v| == e + 4 + |userAgent| && v[0] == '"' && v[|v| - 1] == '"'
            && v[1..e] == referrer && v[e..e + 3] == "\" \"" && v[e + 3..|v| - 1] == userAgent
            && forall i :: 1 <= i < e ==> v[i] == referrer[i - 1]
  {
    var v := QuotedText(referrer, userAgent);
    var e := 1 + |referrer|;
    var w := userAgent + "\"";
    var x := "\" \"" + w;
    var y := referrer + x;
    assert v == "\"" + y;
    ConcatParts("\"", y);
    ConcatParts(referrer, x);
    ConcatParts("\" \"", w);
    ConcatParts(userAgent, "\"");
    assert v[1..e] == y[..|referrer|];
    assert v[e..] == x;
    assert v[e..e + 3] == x[..3];
    assert v[e + 3..] == w;
    assert v[e + 3..|v| - 1] == w[..|userAgent|];
  }

  // ---------------------------------------------------------------------
  // After the timestamp, and the lazy timestamp itself
  // ---------------------------------------------------------------------

  /** `(\d+) \d+ ".*?" ".*?"$` on the whole of `s`. */
  function AfterRequest(s: string): (r: Option<Trailer>)
    ensures r.Some? ==> Number(r.value.status) && Number(r.value.size)
                        && NoNewline(r.value.referrer) && NoNewline(r.value.userAgent)
                        && s == TrailerText(r.value)
  {
    var st :- DigitTerminated(s);
    var sz :- DigitTerminated(st.rest);
    var q :- QuotedPair(sz.rest);
    Some(Trailer(st.field, sz.field, q.referrer, q.userAgent))
  }

  /** `\] "(\S+) (\S+) (\S+)" (\d+) \d+ ".*?" ".*?"$` on the whole of `u`. */
  function AfterTimestamp(u: string): (r: Option<Tail>)
    ensures r.Some? ==> TailWellFormed(r.value) && u == TailText(r.value)
  {
    var u1 :- AfterPrefix(u, "] \"");
    var m :- SpaceTerminated(u1);
    var p :- SpaceTerminated(m.rest);
    var pr :- QuoteTerminated(p.rest);
    var tr :- AfterRequest(pr.rest);
    Some(Tail(m.field, p.field, pr.field, tr.status, tr.size, tr.referrer, tr.userAgent))
  }

  /** The status and size are forced; the referrer is at most as long as the
      one the text was written with, and equal to it when that one holds no
      `"`. */
  lemma AfterRequestOf(tr: Trailer)
    requires Number(tr.status) && Number(tr.size) && NoNewline(tr.referrer) && NoNewline(tr.userAgent)
    ensures AfterRequest(TrailerText(tr)).Some?
    ensures var r := AfterRequest(TrailerText(tr)).value;
            r.status == tr.status && r.size == tr.size && |r.referrer| <= |tr.referrer|
    ensures (forall i :: 0 <= i < |tr.referrer| ==> tr.referrer[i] != '"')
            ==> AfterRequest(TrailerText(tr)) == Some(tr)
  {
    var q := QuotedText(tr.referrer, tr.userAgent);
    var sz := tr.size + (" " + q);
    DigitTerminatedOf(tr.status, sz);
    DigitTerminatedOf(tr.size, q);
    QuotedPairOf(tr.referrer, tr.userAgent);
    var found := QuotedPair(q).value;
    assert AfterRequest(TrailerText(tr)) == Some(Trailer(tr.status, tr.size, found.referrer, found.userAgent));
  }

  /** The two quoted fields: the referrer found is at most as long as the
      one written, and equal to it when that one holds no `"`. */
  lemma QuotedPairOf(referrer: string, userAgent: string)
    requires NoNewline(referrer) && NoNewline(userAgent)
    ensures QuotedPair(QuotedText(referrer, userAgent)).Some?
    ensures |QuotedPair(QuotedText(referrer, userAgent)).value.referrer| <= |referrer|
    ensures (forall i :: 0 <= i < |referrer| ==> referrer[i] != '"')
            ==> QuotedPair(QuotedText(referrer, userAgent)) == Some(Quoted(referrer, userAgent))
  {
    var q := QuotedText(referrer, userAgent);
    assert q[0] == '"' && q[1..1] == [];
    LazySeparatorFinds(q, 1, referrer, userAgent);
  }

  /** Recognising the text after the timestamp is forced up to the referrer,
      which is at most as long as the one it was written with, and equal to it
      when that one holds no `"`. */
  lemma AfterTimestampOf(t: Tail)
    requires TailWellFormed(t)
    ensures AfterTimestamp(TailText(t)).Some?
    ensures var r := AfterTimestamp(TailText(t)).value;
            r.httpMethod == t.httpMethod && r.path == t.path && r.protocol == t.protocol
            && r.status == t.status && r.size == t.size && |r.referrer| <= |t.referrer|
    ensures (forall i :: 0 <= i < |t.referrer| ==> t.referrer[i] != '"') ==> AfterTimestamp(TailText(t)) == Some(t)
  {
    var st := TrailerText(TrailerOf(t));
    var pr := t.protocol + ("\" " + st);
    var p := t.path + (" " + pr);
    var m := t.httpMethod + (" " + p);
    AfterPrefixOf("] \"", m);
    SpaceTerminatedOf(t.httpMethod, p);
    SpaceTerminatedOf(t.path, pr);
    QuoteTerminatedOf(t.protocol, st);
    AfterRequestOf(TrailerOf(t));
  }

  /** The lazy `(.*?)` of the timestamp: with `t[..k]` as timestamp, try the
      rest of the pattern on `t[k..]`; on failure take one more character,
      unless it is a newline. */
  function LazyTimestamp(t: string, k: nat): (r: Option<Stamped>)
    requires k <= |t| && NoNewline(t[..k])
    ensures r.Some? ==> k <= |r.value.timestamp| <= |t| && r.value.timestamp == t[..|r.value.timestamp|]
                        && NoNewline(r.value.timestamp)
                        && AfterTimestamp(t[|r.value.timestamp|..]) == Some(r.value.tail)
    decreases |t| - k
  {
    var after := AfterTimestamp(t[k..]);
    if after.Some? then
      Some(Stamped(t[..k], after.value))
    else
      if k < |t| && t[k] != '\n' then
        PrefixExtend(t, k);
        LazyTimestamp(t, k + 1)
      else
        None
  }

  /** Every way of writing `t` as a timestamp followed by a well-formed tail
      leads the lazy search to a timestamp no longer than that one; when that
      timestamp holds no `]`, the search stops exactly at its end. */
  lemma {:induction false} LazyTimestampFinds(t: string, k: nat, timestamp: string, tail: Tail)
    requires NoNewline(timestamp) && TailWellFormed(tail)
    requires t == timestamp + TailText(tail)
    requires k <= |timestamp| && NoNewline(t[..k])
    ensures LazyTimestamp(t, k).Some?
    ensures |LazyTimestamp(t, k).value.timestamp| <= |timestamp|
    ensures (forall i :: k <= i < |timestamp| ==> timestamp[i] != ']')
            ==> LazyTimestamp(t, k).value.timestamp == timestamp
    decreases |timestamp| - k
  {
    ConcatParts(timestamp, TailText(tail));
    if k == |timestamp| {
      AfterTimestampOf(tail);
    } else {
      assert t[k] == timestamp[k];
      var after := AfterTimestamp(t[k..]);
      if after.Some? {
        TailTextStart(after.value);
        assert t[k..][0] == ']';
      } else {
        PrefixExtend(t, k);
        LazyTimestampFinds(t, k + 1, timestamp, tail);
      }
    }
  }

  lemma TailTextStart(t: Tail)
    ensures |TailText(t)| > 0 && TailText(t)[0] == ']'
  {
  }

  /** What the lazy timestamp search returns, put back together. */
  lemma StampedText(t: string, st: Stamped)
    requires |st.timestamp| <= |t| && st.timestamp == t[..|st.timestamp|]
    requires AfterTimestamp(t[|st.timestamp|..]) == Some(st.tail)
    ensures t == st.timestamp + TailText(st.tail) && TailWellFormed(st.tail)
  {
    SplitAt(t, |st.timestamp|);
  }

  // ---------------------------------------------------------------------
  // The whole pattern
  // ---------------------------------------------------------------------

  /** `log_pattern.match(s)` on a stripped line `s`. (`$` also matches before
      a final newline, which a stripped line never has.) */
  function MatchLine(s: string): (r: Option<Parsed>)
    ensures r.Some? ==> WellFormed(r.value) && Reassemble(r.value) == s
  {
    var ip :- SpaceTerminated(s);
    var ident :- SpaceTerminated(ip.rest);
    var user :- SpaceTerminated(ident.rest);
    var t :- AfterPrefix(user.rest, "[");
    var st :- LazyTimestamp(t, 0);
    StampedText(t, st);
    Some(WithTail(ip.field, ident.field, user.field, st.timestamp, st.tail))
  }

  /** `line.strip()` followed by `log_pattern.match`. */
  function ParseLine(line: string): (r: Option<Parsed>)
    ensures r.Some? ==> WellFormed(r.value) && Reassemble(r.value) == Strip(line)
  {
    MatchLine(Strip(line))
  }

  /** Completeness and the lazy choice: a line written from well-formed
      segments is always recognised; the forced segments come back as they
      were; the timestamp found is the shortest possible, and with that
      timestamp the referrer is the shortest possible. */
  lemma MatchLeast(q: Parsed)
    requires WellFormed(q)
    ensures MatchLine(Reassemble(q)).Some?
    ensures var p := MatchLine(Reassemble(q)).value;
            p.ip == q.ip && p.ident == q.ident && p.authUser == q.authUser
            && |p.timestamp| <= |q.timestamp|
            && (p.timestamp == q.timestamp ==>
                  (p.httpMethod == q.httpMethod && p.path == q.path && p.protocol == q.protocol
                   && p.status == q.status && p.size == q.size && |p.referrer| <= |q.referrer|))
  {
    var t := q.timestamp + TailText(TailOf(q));
    var r3 := " " + ("[" + t);
    var r2 := " " + (q.authUser + r3);
    var r1 := " " + (q.ident + r2);
    assert Reassemble(q) == q.ip + r1;
    SpaceTerminatedOf(q.ip, q.ident + r2);
    SpaceTerminatedOf(q.ident, q.authUser + r3);
    SpaceTerminatedOf(q.authUser, "[" + t);
    AfterPrefixOf("[", t);
    assert t[..0] == [];
    LazyTimestampFinds(t, 0, q.timestamp, TailOf(q));
    var st := LazyTimestamp(t, 0).value;
    if st.timestamp == q.timestamp {
      assert t[|q.timestamp|..] == TailText(TailOf(q));
      AfterTimestampOf(TailOf(q));
    }
  }

  /** Round trip: a line written from well-formed segments whose timestamp
      holds no `]` and whose referrer holds no `"` is cut back into exactly
      those segments. */
  lemma MatchExact(q: Parsed)
    requires WellFormed(q)
    requires forall i :: 0 <= i < |q.timestamp| ==> q.timestamp[i] != ']'
    requires forall i :: 0 <= i < |q.referrer| ==> q.referrer[i] != '"'
    ensures MatchLine(Reassemble(q)) == Some(q)
  {
    var t := q.timestamp + TailText(TailOf(q));
    var r3 := " " + ("[" + t);
    var r2 := " " + (q.authUser + r3);
    var r1 := " " + (q.ident + r2);
    assert Reassemble(q) == q.ip + r1;
    SpaceTerminatedOf(q.ip, q.ident + r2);
    SpaceTerminatedOf(q.ident, q.authUser + r3);
    SpaceTerminatedOf(q.authUser, "[" + t);
    AfterPrefixOf("[", t);
    assert t[..0] == [];
    LazyTimestampFinds(t, 0, q.timestamp, TailOf(q));
    assert t[|q.timestamp|..] == TailText(TailOf(q));
    AfterTimestampOf(TailOf(q));
  }

  /** Leading and trailing whitespace on an input line never changes its
      outcome, because the line is stripped before matching. */
  lemma ParseLineIgnoresPadding(w1: string, line: string, w2: string)
    requires AllSpace(w1) && AllSpace(w2)
    ensures ParseLine(w1 + line + w2) == ParseLine(line)
  {
    StripIgnoresPadding(w1, line, w2);
  }

  /** The recogniser accepts exactly the lines that can be cut into
      well-formed segments; a line with no such cut (say, one whose size
      field is not a digit string wherever the lazy groups end, or whose
      request does not split into three tokens) is rejected. */
  lemma MatchIffWellFormed(s: string)
    ensures MatchLine(s).Some? <==> exists q :: WellFormed(q) && Reassemble(q) == s
  {
    if exists q :: WellFormed(q) && Reassemble(q) == s {
      var q :| WellFormed(q) && Reassemble(q) == s;
      MatchLeast(q);
    }
  }
}
