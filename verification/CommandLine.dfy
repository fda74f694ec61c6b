// Command-line tokens and the handlers that run on them.
module CommandLines {
  import opened Wrappers

  datatype TokenType = NORMAL | SINGLE_LETTER_KEY | EXTENDED_KEY

  datatype Token = Token(entry: string, kind: TokenType)

  // Parsing

  /** The token of one argument; an empty or missing argument has none. */
  function Classify(argument: Option<string>): Option<Token> {
    match argument
    case None => None
    case Some(a) =>
      if a == "" then None
      else if a[0] == '-' then
        if |a| > 1 && a[1] == '-' then Some(Token(a[2..], EXTENDED_KEY)) else Some(Token(a[1..], SINGLE_LETTER_KEY))
      else if a[0] == '/' then Some(Token(a[1..], SINGLE_LETTER_KEY))
      else Some(Token(a, NORMAL))
  }

  function Parsed(arguments: seq<Option<string>>): seq<Token> {
    if arguments == [] then []
    else
      var last := Classify(arguments[|arguments| - 1]);
      Parsed(arguments[..|arguments| - 1]) + if last.Some? then [last.value] else []
  }

  method ParseTokens(arguments: seq<Option<string>>) returns (tokens: seq<Token>)
    ensures tokens == Parsed(arguments)
  {
    tokens := [];
    for i := 0 to |arguments|
      invariant tokens == Parsed(arguments[..i])
    {
      var a := arguments[i];
      if a.Some? && |a.value| > 0 {
        var kind, entry := NORMAL, a.value;
        if entry[0] == '-' {
          if |entry| > 1 && entry[1] == '-' {
            kind, entry := EXTENDED_KEY, entry[2..];
          } else {
            kind, entry := SINGLE_LETTER_KEY, entry[1..];
          }
        } else if entry[0] == '/' {
          kind, entry := SINGLE_LETTER_KEY, entry[1..];
        }
        tokens := tokens + [Token(entry, kind)];
      }
      assert arguments[..i + 1][..i] == arguments[..i];
    }
    assert arguments[..|arguments|] == arguments;
  }

  /** The argument a user would type for a token. */
  function Spelling(t: Token): Option<string> {
    match t.kind
    case NORMAL => Some(t.entry)
    case SINGLE_LETTER_KEY => Some("-" + t.entry)
    case EXTENDED_KEY => Some("--" + t.entry)
  }

  /** A key may not look like the start of a longer one, a plain token not like a
      key or like nothing. */
  predicate Spellable(t: Token) {
    match t.kind
    case NORMAL => t.entry != "" && t.entry[0] != '-' && t.entry[0] != '/'
    case SINGLE_LETTER_KEY => t.entry == "" || t.entry[0] != '-'
    case EXTENDED_KEY => true
  }

  lemma ClassifySpelling(t: Token)
    ensures Classify(Spelling(t)) == Some(t) <==> Spellable(t)
  {
    var a := Spelling(t).value;
    if t.kind == SINGLE_LETTER_KEY {
      assert a[1..] == t.entry;
    } else if t.kind == EXTENDED_KEY {
      assert a[2..] == t.entry;
    }
  }

  function Spellings(ts: seq<Token>): (arguments: seq<Option<string>>)
    ensures |arguments| == |ts|
  {
    seq(|ts|, i requires 0 <= i < |ts| => Spelling(ts[i]))
  }

  /** Parsing inverts spelling. */
  lemma {:induction false} ParseSpellings(ts: seq<Token>)
    requires forall t <- ts :: Spellable(t)
    ensures Parsed(Spellings(ts)) == ts
  {
    if ts != [] {
      var front, last := ts[..|ts| - 1], ts[|ts| - 1];
      assert last in ts;
      ParseSpellings(front);
      ClassifySpelling(last);
      assert Spellings(ts)[..|ts| - 1] == Spellings(front);
    }
  }

  // Handlers

  /** What a handler reacts to and how many tokens it takes. */
  datatype Handler = Handler(shortFlag: string, longFlag: string, expected: nat, optional: nat)

  predicate Matches(h: Handler, t: Token) {
    || (t.kind == SINGLE_LETTER_KEY && t.entry == h.shortFlag)
    || (t.kind == EXTENDED_KEY && t.entry == h.longFlag)
  }

  /** What a user has to type for a handler. */
  lemma TypedKey(h: Handler, a: string, t: Token)
    requires Classify(Some(a)) == Some(t)
    ensures Matches(h, t) <==>
            || a == "--" + h.longFlag
            || a == "/" + h.shortFlag
            || (a == "-" + h.shortFlag && (h.shortFlag == "" || h.shortFlag[0] != '-'))
  {
    if a[0] == '-' && |a| > 1 && a[1] == '-' {
      assert a == "--" + t.entry;
    } else if a[0] == '-' || a[0] == '/' {
      assert a == [a[0]] + t.entry;
    }
  }

  /** The number of plain tokens from index j on. */
  function RunLength(ts: seq<Token>, j: nat): (n: nat)
    requires j <= |ts|
    ensures j + n <= |ts|
    ensures forall k :: j <= k < j + n ==> ts[k].kind == NORMAL
    ensures j + n < |ts| ==> ts[j + n].kind != NORMAL
    decreases |ts| - j
  {
    if j < |ts| && ts[j].kind == NORMAL then 1 + RunLength(ts, j + 1) else 0
  }

  function Min(a: nat, b: nat): nat {
    if a < b then a else b
  }

  function Entries(ts: seq<Token>): (es: seq<string>)
    ensures |es| == |ts|
  {
    seq(|ts|, i requires 0 <= i < |ts| => ts[i].entry)
  }

  /** The key at i is the handler's and has enough plain tokens behind it. */
  predicate IsGood(h: Handler, ts: seq<Token>, i: nat)
    requires i < |ts|
  {
    Matches(h, ts[i]) && RunLength(ts, i + 1) >= h.expected
  }

  predicate IsShort(h: Handler, ts: seq<Token>, i: nat)
    requires i < |ts|
  {
    Matches(h, ts[i]) && RunLength(ts, i + 1) < h.expected
  }

  function TakenBy(h: Handler, ts: seq<Token>, i: nat): nat
    requires i < |ts|
  {
    Min(RunLength(ts, i + 1), h.expected + h.optional)
  }

  /** What the callback gets for the key at i. */
  function Parameters(h: Handler, ts: seq<Token>, i: nat): seq<string>
    requires i < |ts|
  {
    Entries(ts[i + 1..i + 1 + TakenBy(h, ts, i)])
  }

  /** These are the plain tokens behind the key, as many as there are, but no more
      than the handler takes. */
  lemma ParametersExact(h: Handler, ts: seq<Token>, i: nat)
    requires i < |ts|
    ensures var p := Parameters(h, ts, i);
            && |p| <= h.expected + h.optional && i + 1 + |p| <= |ts|
            && (forall k :: 0 <= k < |p| ==> ts[i + 1 + k].kind == NORMAL && p[k] == ts[i + 1 + k].entry)
            && (|p| < h.expected + h.optional && i + 1 + |p| < |ts| ==> ts[i + 1 + |p|].kind != NORMAL)
  {
  }

  /** A key is served exactly when as many plain tokens follow it as the handler
      requires. */
  lemma GoodIff(h: Handler, ts: seq<Token>, i: nat)
    requires i < |ts|
    ensures IsGood(h, ts, i) <==>
            && Matches(h, ts[i]) && i + h.expected < |ts|
            && forall k :: i < k <= i + h.expected ==> ts[k].kind == NORMAL
    ensures IsShort(h, ts, i) <==> Matches(h, ts[i]) && !IsGood(h, ts, i)
  {
  }

  /** The good keys in front of index n, in order. */
  function Good(h: Handler, ts: seq<Token>, n: nat): seq<nat>
    requires n <= |ts|
  {
    if n == 0 then [] else Good(h, ts, n - 1) + if IsGood(h, ts, n - 1) then [n - 1] else []
  }

  lemma {:induction false} GoodExact(h: Handler, ts: seq<Token>, n: nat)
    requires n <= |ts|
    ensures forall i: nat {:trigger i in Good(h, ts, n)} :: i in Good(h, ts, n) <==> i < n && IsGood(h, ts, i)
    ensures forall j, k :: 0 <= j < k < |Good(h, ts, n)| ==> Good(h, ts, n)[j] < Good(h, ts, n)[k]
  {
    if 0 < n {
      GoodExact(h, ts, n - 1);
      var g := Good(h, ts, n - 1);
      forall k | 0 <= k < |g| ensures g[k] < n - 1 {
        assert g[k] in g;
      }
    }
  }

  /** The handler's keys in front of n that lack tokens, in order. */
  function Short(h: Handler, ts: seq<Token>, n: nat): seq<nat>
    requires n <= |ts|
  {
    if n == 0 then [] else Short(h, ts, n - 1) + if IsShort(h, ts, n - 1) then [n - 1] else []
  }

  lemma {:induction false} ShortExact(h: Handler, ts: seq<Token>, n: nat)
    requires n <= |ts|
    ensures forall i: nat {:trigger i in Short(h, ts, n)} :: i in Short(h, ts, n) <==> i < n && IsShort(h, ts, i)
    ensures forall j, k :: 0 <= j < k < |Short(h, ts, n)| ==> Short(h, ts, n)[j] < Short(h, ts, n)[k]
  {
    if 0 < n {
      ShortExact(h, ts, n - 1);
      var s := Short(h, ts, n - 1);
      forall k | 0 <= k < |s| ensures s[k] < n - 1 {
        assert s[k] in s;
      }
    }
  }

  /** Their entries. */
  function Complaints(h: Handler, ts: seq<Token>, n: nat): seq<string>
    requires n <= |ts|
  {
    if n == 0 then [] else Complaints(h, ts, n - 1) + if IsShort(h, ts, n - 1) then [ts[n - 1].entry] else []
  }

  lemma {:induction false} ComplaintsExact(h: Handler, ts: seq<Token>, n: nat)
    requires n <= |ts|
    ensures |Complaints(h, ts, n)| == |Short(h, ts, n)|
    ensures forall k :: 0 <= k < |Short(h, ts, n)| ==>
              Short(h, ts, n)[k] < |ts| && Complaints(h, ts, n)[k] == ts[Short(h, ts, n)[k]].entry
  {
    if 0 < n {
      ComplaintsExact(h, ts, n - 1);
    }
  }

  /** No token is handed out twice, nor is a key handed out as a token. */
  lemma NoTokenTwice(h: Handler, ts: seq<Token>, i: nat, j: nat)
    requires i < j < |ts| && Matches(h, ts[j])
    ensures i + 1 + TakenBy(h, ts, i) <= j
  {
  }

  ghost predicate Inside(keys: seq<nat>, ts: seq<Token>) {
    forall k :: 0 <= k < |keys| ==> keys[k] < |ts|
  }

  /** What the callback gets for each of the keys. */
  ghost function CallsOf(h: Handler, ts: seq<Token>, keys: seq<nat>): (calls: seq<seq<string>>)
    requires Inside(keys, ts)
    ensures |calls| == |keys| && forall k :: 0 <= k < |calls| ==> calls[k] == Parameters(h, ts, keys[k])
  {
    seq(|keys|, k requires 0 <= k < |keys| => Parameters(h, ts, keys[k]))
  }

  lemma GoodInside(h: Handler, ts: seq<Token>, n: nat)
    requires n <= |ts|
    ensures Inside(Good(h, ts, n), ts)
  {
    GoodExact(h, ts, n);
    forall k | 0 <= k < |Good(h, ts, n)| ensures Good(h, ts, n)[k] < |ts| {
      assert Good(h, ts, n)[k] in Good(h, ts, n);
    }
  }

  /** Plain tokens from j on, at most `most` of them. */
  method CollectNormal(ts: seq<Token>, j: nat, most: nat, work: seq<string>)
    returns (j': nat, remaining: nat, work': seq<string>)
    requires j <= |ts|
    ensures var n := Min(RunLength(ts, j), most);
            j' == j + n && remaining == most - n && work' == work + Entries(ts[j..j + n])
  {
    j', remaining, work' := j, most, work;
    while remaining > 0 && j' < |ts| && ts[j'].kind == NORMAL
      invariant j <= j' <= |ts| && remaining == most - (j' - j) && j' - j <= RunLength(ts, j)
      invariant RunLength(ts, j') == RunLength(ts, j) - (j' - j)
      invariant work' == work + Entries(ts[j..j'])
      decreases remaining
    {
      assert Entries(ts[j..j' + 1]) == Entries(ts[j..j']) + [ts[j'].entry];
      work' := work' + [ts[j'].entry];
      j', remaining := j' + 1, remaining - 1;
    }
  }

  lemma {:induction false} RestOfRun(ts: seq<Token>, j: nat, n: nat)
    requires j <= |ts| && n <= RunLength(ts, j)
    ensures RunLength(ts, j + n) == RunLength(ts, j) - n
    decreases n
  {
    if 0 < n {
      RestOfRun(ts, j + 1, n - 1);
    }
  }

  lemma SplitEntries(h: Handler, ts: seq<Token>, i: nat)
    requires i < |ts| && h.expected <= RunLength(ts, i + 1)
    ensures var j := i + 1 + h.expected;
            var n := Min(RunLength(ts, i + 1) - h.expected, h.optional);
            Parameters(h, ts, i) == [] + Entries(ts[i + 1..j]) + Entries(ts[j..j + n])
  {
  }

  /** The tokens behind the key at i, required ones first. */
  method CollectFor(h: Handler, ts: seq<Token>, i: nat) returns (enough: bool, work: seq<string>)
    requires i < |ts|
    ensures enough <==> RunLength(ts, i + 1) >= h.expected
    ensures enough ==> work == Parameters(h, ts, i)
  {
    hide RunLength, Entries, Parameters;
    var j, remaining;
    j, remaining, work := CollectNormal(ts, i + 1, h.expected, []);
    enough := remaining == 0;
    if enough {
      RestOfRun(ts, i + 1, h.expected);
      SplitEntries(h, ts, i);
      j, remaining, work := CollectNormal(ts, j, h.optional, work);
    }
  }

  lemma OneMore(h: Handler, ts: seq<Token>, i: nat)
    requires i < |ts|
    ensures Inside(Good(h, ts, i), ts)
    ensures Inside(Good(h, ts, i + 1), ts)
    ensures CallsOf(h, ts, Good(h, ts, i + 1)) ==
            CallsOf(h, ts, Good(h, ts, i)) + if IsGood(h, ts, i) then [Parameters(h, ts, i)] else []
    ensures Complaints(h, ts, i + 1) == Complaints(h, ts, i) + if IsShort(h, ts, i) then [ts[i].entry] else []
    ensures IsGood(h, ts, i) ==> |Good(h, ts, i + 1)| > 0 && Good(h, ts, i + 1)[|Good(h, ts, i + 1)| - 1] == i
  {
    GoodInside(h, ts, i);
    GoodInside(h, ts, i + 1);
  }

  lemma NoCalls(h: Handler, ts: seq<Token>)
    ensures Good(h, ts, 0) == [] && CallsOf(h, ts, []) == [] && Complaints(h, ts, 0) == []
  {
  }

  /** The callback runs for the first maxInvocations good keys, or up to the first
      it refuses, which ends the process; its answers may change from call to call
      and are numbered. The keys in front of where the scan
      ends that lack tokens are complained about. */
  method RunHandler(callback: (nat, seq<string>) -> bool, h: Handler, ts: seq<Token>, maxInvocations: nat)
    returns (calls: seq<seq<string>>, warnings: seq<string>, terminated: bool, ghost scanned: nat)
    ensures scanned <= |ts|
    ensures Inside(Good(h, ts, scanned), ts) && calls == CallsOf(h, ts, Good(h, ts, scanned))
    ensures forall k :: 0 <= k < |calls| ==> calls[k] == Parameters(h, ts, Good(h, ts, scanned)[k])
    ensures |calls| <= maxInvocations
    ensures forall k :: 0 <= k < |calls| - 1 ==> callback(k, calls[k])
    ensures terminated <==> calls != [] && !callback(|calls| - 1, calls[|calls| - 1])
    ensures if !terminated && |calls| < maxInvocations then scanned == |ts|
            else if calls == [] then scanned == 0
            else Good(h, ts, scanned)[|calls| - 1] == scanned - 1
    ensures warnings == Complaints(h, ts, scanned)
  {
    hide CallsOf, Parameters, RunLength, Good, Complaints, Matches;
    calls, warnings, terminated, scanned := [], [], false, 0;
    NoCalls(h, ts);
    var left := maxInvocations;
    var i := 0;
    while left > 0 && i < |ts|
      invariant 0 <= i <= |ts| && left == maxInvocations - |calls| && scanned == i
      invariant Inside(Good(h, ts, i), ts) && calls == CallsOf(h, ts, Good(h, ts, i))
      invariant forall k :: 0 <= k < |calls| ==> callback(k, calls[k])
      invariant left == 0 ==> if calls == [] then i == 0 else Good(h, ts, i)[|calls| - 1] == i - 1
      invariant warnings == Complaints(h, ts, i)
      decreases |ts| - i
    {
      OneMore(h, ts, i);
      if Matches(h, ts[i]) {
        var enough, work := CollectFor(h, ts, i);
        if enough {
          calls := calls + [work];
          if !callback(|calls| - 1, work) {
            return calls, warnings, true, i + 1;
          }
          left := left - 1;
        } else {
          warnings := warnings + [ts[i].entry];
        }
      }
      i := i + 1;
      scanned := i;
    }
  }
}
