/** `itemRates`: the parser that turns a recipe's ingredient or product
    property string, such as `((ItemClass=".../Desc_OreIron.Desc_OreIron_C",Amount=3))`,
    into a list of item rates per minute. */
module ItemRates {
  import opened Wrappers
  import opened Text
  import opened Numbers

  datatype ItemRate = ItemRate(item: string, rate: Number)

  /** The parser fails as a whole on the first malformed group; the model
      keeps that group's text. */
  datatype ParseError = MalformedGroup(group: string)

  /** The positions of a group's opening and closing parenthesis. */
  datatype Span = Span(open: nat, close: nat)

  predicate IsParen(c: char) {
    c == '(' || c == ')'
  }

  /** `s[open..close + 1]` matches `\([^()]+\)`: a parenthesis-free group
      with at least one character inside. */
  predicate IsGroup(s: string, open: int, close: int) {
    && 0 <= open && open + 1 < close < |s|
    && s[open] == '(' && s[close] == ')'
    && forall k :: open < k < close ==> !IsParen(s[k])
  }

  predicate SpansInBounds(s: string, spans: seq<Span>) {
    forall a :: 0 <= a < |spans| ==> spans[a].open <= spans[a].close < |s|
  }

  /** The index of the first parenthesis at or after `from`, or `|s|`. */
  function NextParen(s: string, from: nat): (r: nat)
    requires from <= |s|
    ensures from <= r <= |s|
    ensures r < |s| ==> IsParen(s[r])
    ensures forall k :: from <= k < r ==> !IsParen(s[k])
    decreases |s| - from
  {
    if from == |s| || IsParen(s[from]) then from else NextParen(s, from + 1)
  }

  /** The global scan `input.matchAll(/\([^()]+\)/g)` from position `from`:
      a match at `from` resumes the scan after its closing parenthesis, a
      failed attempt resumes one character later. */
  function GroupSpans(s: string, from: nat): (r: seq<Span>)
    requires from <= |s|
    ensures forall a :: 0 <= a < |r| ==> from <= r[a].open && IsGroup(s, r[a].open, r[a].close)
    ensures forall a, b :: 0 <= a < b < |r| ==> r[a].close < r[b].open
    decreases |s| - from
  {
    if from == |s| then []
    else if s[from] != '(' then GroupSpans(s, from + 1)
    else
      var close := NextParen(s, from + 1);
      if close < |s| && s[close] == ')' && from + 1 < close then [Span(from, close)] + GroupSpans(s, close + 1)
      else GroupSpans(s, from + 1)
  }

  /** The scan misses no group: every parenthesis-free group at or after
      `from` is one of the spans found. */
  lemma {:induction false} GroupSpansComplete(s: string, from: nat, open: nat, close: nat)
    requires from <= |s|
    requires IsGroup(s, open, close) && from <= open
    ensures Span(open, close) in GroupSpans(s, from)
    decreases |s| - from
  {
    if s[from] != '(' {
      GroupSpansComplete(s, from + 1, open, close);
    } else {
      var next := NextParen(s, from + 1);
      if open == from {
        assert next == close;
      } else if next < |s| && s[next] == ')' && from + 1 < next {
        assert open > next;
        GroupSpansComplete(s, next + 1, open, close);
      } else {
        GroupSpansComplete(s, from + 1, open, close);
      }
    }
  }

  /** The full text a span matched, parentheses included. */
  function SpanText(s: string, sp: Span): string
    requires sp.open <= sp.close < |s|
  {
    s[sp.open..sp.close + 1]
  }

  /** The spans of all groups of the input, left to right. */
  function Groups(s: string): (r: seq<Span>)
    ensures SpansInBounds(s, r)
  {
    GroupSpans(s, 0)
  }

  /** A `.` immediately followed by a word character: where
      `/\.([a-zA-Z0-9_]+)/` can match. */
  predicate DotWordAt(g: string, k: int) {
    0 <= k && k + 1 < |g| && g[k] == '.' && IsWordChar(g[k + 1])
  }

  /** The first position at or after `from` where `DotWordAt` holds. */
  function FirstDotWord(g: string, from: nat): (r: Option<nat>)
    requires from <= |g|
    ensures r.Some? ==> from <= r.value && DotWordAt(g, r.value)
    ensures r.Some? ==> forall m :: from <= m < r.value ==> !DotWordAt(g, m)
    ensures r.None? ==> forall m :: from <= m < |g| ==> !DotWordAt(g, m)
    decreases |g| - from
  {
    if from == |g| then None
    else if DotWordAt(g, from) then Some(from)
    else FirstDotWord(g, from + 1)
  }

  /** The capture of `/\.([a-zA-Z0-9_]+)/`: the maximal word-character run
      after the first `.` that is followed by a word character. */
  function ItemReference(g: string): (r: Option<string>)
    ensures r.Some? ==> |r.value| > 0 && forall i :: 0 <= i < |r.value| ==> IsWordChar(r.value[i])
  {
    match FirstDotWord(g, 0)
    case None => None
    case Some(k) => Some(g[k + 1..k + 1 + RunLength(g, k + 1, IsWordChar)])
  }

  /** A group has an item reference exactly when some `.` in it is followed
      by a word character. */
  lemma ItemReferenceAbsent(g: string)
    ensures ItemReference(g).None? <==> forall k :: 0 <= k < |g| ==> !DotWordAt(g, k)
  {
  }

  /** The item reference is the maximal word-character run that starts right
      after the first `.` followed by a word character. */
  lemma ItemReferenceIsFirstRun(g: string, k: nat)
    requires DotWordAt(g, k) && forall m :: 0 <= m < k ==> !DotWordAt(g, m)
    ensures ItemReference(g).Some?
    ensures var w := ItemReference(g).value;
            && k + 1 + |w| <= |g|
            && w == g[k + 1..k + 1 + |w|]
            && (k + 1 + |w| == |g| || !IsWordChar(g[k + 1 + |w|]))
  {
  }

  predicate IsLineTerminator(c: char) {
    c == '\n' || c == '\r' || c == '\U{2028}' || c == '\U{2029}'
  }

  function NotLineTerminator(c: char): bool {
    !IsLineTerminator(c)
  }

  /** `Amount=` followed by a character that `.` matches: where
      `/Amount=(.+)/` can match. */
  predicate AmountAt(g: string, k: int) {
    0 <= k && k + 7 < |g| && g[k..k + 7] == "Amount=" && !IsLineTerminator(g[k + 7])
  }

  /** The first position at or after `from` where `AmountAt` holds. */
  function FirstAmount(g: string, from: nat): (r: Option<nat>)
    requires from <= |g|
    ensures r.Some? ==> from <= r.value && AmountAt(g, r.value)
    ensures r.Some? ==> forall m :: from <= m < r.value ==> !AmountAt(g, m)
    ensures r.None? ==> forall m :: from <= m < |g| ==> !AmountAt(g, m)
    decreases |g| - from
  {
    if from == |g| then None
    else if AmountAt(g, from) then Some(from)
    else FirstAmount(g, from + 1)
  }

  /** The capture of `/Amount=(.+)/`: everything after the first usable
      `Amount=` up to the end of its line. */
  function AmountText(g: string): (r: Option<string>)
    ensures r.Some? ==> |r.value| > 0 && forall i :: 0 <= i < |r.value| ==> !IsLineTerminator(r.value[i])
  {
    match FirstAmount(g, 0)
    case None => None
    case Some(k) => Some(g[k + 7..k + 7 + RunLength(g, k + 7, NotLineTerminator)])
  }

  /** A group has an amount text exactly when some `Amount=` in it is
      followed by a character other than a line terminator. */
  lemma AmountTextAbsent(g: string)
    ensures AmountText(g).None? <==> forall k :: 0 <= k < |g| ==> !AmountAt(g, k)
  {
  }

  /** The amount text is what follows the first usable `Amount=`, up to the
      end of its line. */
  lemma AmountTextIsFirstField(g: string, k: nat)
    requires AmountAt(g, k) && forall m :: 0 <= m < k ==> !AmountAt(g, m)
    ensures AmountText(g).Some?
    ensures var t := AmountText(g).value;
            && k + 7 + |t| <= |g|
            && t == g[k + 7..k + 7 + |t|]
            && (k + 7 + |t| == |g| || IsLineTerminator(g[k + 7 + |t|]))
  {
  }

  /** One iteration of the loop: the item id and rate of a group, or the
      failure the loop throws when either field is missing. */
  function GroupRate(g: string, seconds: Number): Result<ItemRate, ParseError> {
    match ItemReference(g)
    case None => Failure(MalformedGroup(g))
    case Some(id) =>
      match AmountText(g)
      case None => Failure(MalformedGroup(g))
      case Some(amount) => Success(ItemRate(Normalize(id), PerMinute(ParseFloat(amount), seconds)))
  }

  /** Helper: the three outcomes of `GroupRate`, one fact each. */
  lemma GroupRateMeaning(g: string, seconds: Number)
    ensures GroupRate(g, seconds).Failure? <==> ItemReference(g).None? || AmountText(g).None?
    ensures GroupRate(g, seconds).Failure? ==> GroupRate(g, seconds).error == MalformedGroup(g)
    ensures GroupRate(g, seconds).Success? ==>
              && GroupRate(g, seconds).value.item == Normalize(ItemReference(g).value)
              && AllAlnum(GroupRate(g, seconds).value.item)
              && GroupRate(g, seconds).value.rate == PerMinute(ParseFloat(AmountText(g).value), seconds)
  {
  }

  /** `Amount=` starts at position `m` of `s`. */
  predicate AmountKeyAt(s: string, m: int) {
    0 <= m && m + 7 <= |s| && s[m..m + 7] == "Amount="
  }

  /** No `Amount=` occurs anywhere in `s`. */
  predicate NoAmountField(s: string) {
    forall m :: 0 <= m < |s| ==> !AmountKeyAt(s, m)
  }

  /** The item reference is the word run after the first `.`, when no `.`
      comes before it and a non-word character ends it. */
  lemma ItemOfGroup(pre: string, id: string, mid: string, d: string)
    requires '.' !in pre
    requires |id| > 0 && forall i :: 0 <= i < |id| ==> IsWordChar(id[i])
    requires |mid| > 0 && !IsWordChar(mid[0])
    ensures ItemReference("(" + pre + "." + id + mid + "Amount=" + d + ")") == Some(id)
  {
    var g := "(" + pre + "." + id + mid + "Amount=" + d + ")";
    var k := 1 + |pre|;
    var head := "(" + pre + "." + id + mid;
    assert g[..|head|] == head;
    assert head[k] == '.' && head[k + 1] == id[0] && head[k + 1 + |id|] == mid[0];
    assert DotWordAt(g, k);
    forall m | 0 <= m < k
      ensures !DotWordAt(g, m)
    {
      if m > 0 {
        assert head[m] == pre[m - 1];
      }
    }
    ItemReferenceIsFirstRun(g, k);
    var w := ItemReference(g).value;
    assert forall i :: 0 <= i < |id| ==> head[k + 1 + i] == id[i];
    assert w == head[k + 1..k + 1 + |id|];
  }

  /** The amount text is everything after the only `Amount=`, when that
      contains no line terminator. */
  lemma AmountOfGroup(head: string, d: string)
    requires NoAmountField(head)
    requires |d| > 0 && forall i :: 0 <= i < |d| ==> !IsLineTerminator(d[i])
    ensures AmountText(head + "Amount=" + d + ")") == Some(d + ")")
  {
    var num := d + ")";
    var g := head + "Amount=" + d + ")";
    var a := |head|;
    assert g == head + ("Amount=" + num) && |g| == a + 7 + |num|;
    FirstAmountAfter(head, num);
    AmountTextIsFirstField(g, a);
    var t := AmountText(g).value;
    assert forall i :: 0 <= i < |num| ==> !IsLineTerminator(num[i]) && g[a + 7 + i] == num[i];
    assert t == g[a + 7..] == num;
  }

  /** Helper: after a text without `Amount=`, the first usable `Amount=` is
      the one that follows it. */
  lemma FirstAmountAfter(head: string, num: string)
    requires NoAmountField(head)
    requires |num| > 0 && !IsLineTerminator(num[0])
    ensures AmountAt(head + ("Amount=" + num), |head|)
    ensures forall m :: 0 <= m < |head| ==> !AmountAt(head + ("Amount=" + num), m)
  {
    var tail := "Amount=" + num;
    var g := head + tail;
    var a := |head|;
    assert g[a..a + 7] == tail[..7] == "Amount=";
    assert g[a + 7] == num[0];
    forall m | 0 <= m < a
      ensures !AmountAt(g, m)
    {
      if m + 7 <= a {
        assert g[m..m + 7] == head[m..m + 7];
        assert !AmountKeyAt(head, m);
      } else {
        assert g[m + 6] == tail[m + 6 - a] != '=';
        assert g[m..m + 7][6] == g[m + 6];
      }
    }
  }

  /** A well-formed group parses back to its item and rate: the item id is
      the normalized reference after the group's only `.`, and the rate is
      the printed amount converted to per minute, which `PerMinute` states as
      `n * 60 / seconds` for a positive cycle time. */
  lemma GroupRoundTrip(pre: string, id: string, mid: string, n: nat, seconds: Number)
    requires '.' !in pre
    requires |id| > 0 && forall i :: 0 <= i < |id| ==> IsWordChar(id[i])
    requires |mid| > 0 && !IsWordChar(mid[0])
    requires NoAmountField("(" + pre + "." + id + mid)
    ensures GroupRate("(" + pre + "." + id + mid + "Amount=" + Decimal(n) + ")", seconds)
         == Success(ItemRate(Normalize(id), PerMinute(Finite(n as real), seconds)))
  {
    var g := "(" + pre + "." + id + mid + "Amount=" + Decimal(n) + ")";
    ItemOfGroup(pre, id, mid, Decimal(n));
    DecimalPrintable(n);
    AmountOfGroup("(" + pre + "." + id + mid, Decimal(n));
    GroupRateOf(g, id, Decimal(n) + ")", seconds);
    WholeRoundTrip(n, ")");
  }

  /** Helper: a decimal rendering contains no line terminator. */
  lemma DecimalPrintable(n: nat)
    ensures forall i :: 0 <= i < |Decimal(n)| ==> !IsLineTerminator(Decimal(n)[i])
  {
    assert forall i :: 0 <= i < |Decimal(n)| ==> IsDigit(Decimal(n)[i]);
  }

  /** Helper: the outcome of a group whose two fields are known. */
  lemma GroupRateOf(g: string, id: string, amount: string, seconds: Number)
    requires ItemReference(g) == Some(id) && AmountText(g) == Some(amount)
    ensures GroupRate(g, seconds) == Success(ItemRate(Normalize(id), PerMinute(ParseFloat(amount), seconds)))
  {
  }

  /** The loop's control flow, independent of what one iteration computes:
      the values of all iterations in order, or the error of the first
      iteration that fails, after which nothing more is collected. */
  function Collect<T, E>(rs: seq<Result<T, E>>): (r: Result<seq<T>, E>)
    ensures r.Success? <==> forall a :: 0 <= a < |rs| ==> rs[a].Success?
    ensures r.Success? ==> |r.value| == |rs| && forall a :: 0 <= a < |rs| ==> rs[a] == Success(r.value[a])
    ensures r.Failure? ==>
              exists a :: (0 <= a < |rs| && rs[a] == Failure(r.error)
                && forall b :: 0 <= b < a ==> rs[b].Success?)
  {
    if rs == [] then Success([])
    else if rs[0].Failure? then Failure(rs[0].error)
    else
      var tail := Collect(rs[1..]);
      assert forall a :: 1 <= a < |rs| ==> rs[a] == rs[1..][a - 1];
      if tail.Failure? then Failure(tail.error)
      else Success([rs[0].value] + tail.value)
  }

  /** One `GroupRate` per group of the input, in order. */
  function GroupResults(input: string, seconds: Number): (rs: seq<Result<ItemRate, ParseError>>)
    ensures |rs| == |Groups(input)|
  {
    var spans := Groups(input);
    seq(|spans|, a requires 0 <= a < |spans| => GroupRate(SpanText(input, spans[a]), seconds))
  }

  /** `itemRates(input, secondsToCreate)`: the rates of all groups in
      order, or the error of the first malformed group. */
  function ParseItemRates(input: string, seconds: Number): (r: Result<seq<ItemRate>, ParseError>)
    ensures var rs := GroupResults(input, seconds);
            && (r.Success? <==> forall a :: 0 <= a < |rs| ==> rs[a].Success?)
            && (r.Success? ==> |r.value| == |Groups(input)|
                               && forall a :: 0 <= a < |rs| ==> rs[a] == Success(r.value[a]))
            && (r.Failure? ==>
                  exists a :: (0 <= a < |rs| && rs[a] == Failure(r.error)
                    && forall b :: 0 <= b < a ==> rs[b].Success?))
  {
    Collect(GroupResults(input, seconds))
  }

  /** The spans found are exactly the parenthesis-free groups of the input. */
  lemma GroupsExact(s: string, open: nat, close: nat)
    ensures Span(open, close) in Groups(s) <==> IsGroup(s, open, close)
  {
    if IsGroup(s, open, close) {
      GroupSpansComplete(s, 0, open, close);
    }
  }

  /** An input yields the empty list exactly when it holds no
      parenthesis-free group. */
  lemma NoGroupsNoRates(input: string, seconds: Number)
    ensures ParseItemRates(input, seconds) == Success([])
        <==> forall open, close :: !IsGroup(input, open, close)
  {
    if ParseItemRates(input, seconds) == Success([]) {
      forall open, close | IsGroup(input, open, close)
        ensures false
      {
        GroupsExact(input, open, close);
      }
    }
  }

  /** Every rate returned comes from its group: the item is the normalized
      reference after the group's first `.`, and the rate is the group's
      `Amount` converted from per cycle to per minute (see `PerMinute`). */
  lemma ReturnedRates(input: string, seconds: Number, a: nat)
    ensures ParseItemRates(input, seconds).Success? && a < |Groups(input)| ==>
              var g := SpanText(input, Groups(input)[a]);
              && ItemReference(g).Some? && AmountText(g).Some?
              && ParseItemRates(input, seconds).value[a]
                 == ItemRate(Normalize(ItemReference(g).value), PerMinute(ParseFloat(AmountText(g).value), seconds))
  {
    if ParseItemRates(input, seconds).Success? && a < |Groups(input)| {
      var g := SpanText(input, Groups(input)[a]);
      assert GroupResults(input, seconds)[a] == GroupRate(g, seconds);
      GroupRateMeaning(g, seconds);
    }
  }


  /** Every item id the parser returns is purely alphanumeric. */
  lemma ParsedItemsAlnum(input: string, seconds: Number)
    ensures var r := ParseItemRates(input, seconds);
            r.Success? ==> forall a :: 0 <= a < |r.value| ==> AllAlnum(r.value[a].item)
  {
    var r := ParseItemRates(input, seconds);
    if r.Success? {
      forall a | 0 <= a < |r.value|
        ensures AllAlnum(r.value[a].item)
      {
        ReturnedRates(input, seconds, a);
      }
    }
  }
}
