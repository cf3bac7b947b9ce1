/**
 The canonical text a traffic-change intent is digested from (pkg/gslb/intent.go). Its fields are
 joined by bars, with an arbitrary tenant in the middle and a sorted map of quoted member weights
 near the end. The main result says exactly when two intents have the same text.
 */
module GslbPayload {
  import opened Texts
  import opened Quoting

  datatype Intent = Intent(
    apiVersion: string, kind: string, serviceId: string, tenantId: string, targetPoolId: string,
    weights: map<string, int>, reason: string, drGroupRef: string,
    idempotencyKey: string, correlationId: string)

  const API_VERSION := "gslb.hnb.io/v1"
  const FAILOVER := "gslb.failover"
  const SWITCHBACK := "gslb.switchback"
  const WEIGHT_UPDATE := "gslb.weight-update"
  const DRILL := "gslb.drill"

  // ---- validation -----------------------------------------------------------------------------

  predicate IsAlphanumeric(c: char) {
    '0' <= c <= '9' || 'a' <= c <= 'z' || 'A' <= c <= 'Z'
  }

  predicate IsUuid(s: string) {
    && |s| == 36
    && forall i :: 0 <= i < 36 ==>
         if i in {8, 13, 18, 23} then s[i] == '-'
         else '0' <= s[i] <= '9' || 'a' <= s[i] <= 'f' || 'A' <= s[i] <= 'F'
  }

  predicate IsIdempotencyKey(s: string) {
    1 <= |s| <= 128 && forall c <- s :: '!' <= c <= '~'
  }

  predicate IsGroupRef(s: string) {
    1 <= |s| <= 128 && IsAlphanumeric(s[0]) && forall c <- s[1..] :: IsAlphanumeric(c) || c in "_.:-"
  }

  predicate ValidCommon(i: Intent) {
    && i.apiVersion == API_VERSION
    && i.kind in {FAILOVER, SWITCHBACK, WEIGHT_UPDATE, DRILL}
    && IsUuid(i.serviceId)
    && i.tenantId != "" && ByteLength(i.tenantId) <= 128
    && IsIdempotencyKey(i.idempotencyKey)
    && IsUuid(i.correlationId)
    && ByteLength(i.reason) <= 512
    && (i.drGroupRef == "" || IsGroupRef(i.drGroupRef))
  }

  /** A weight update names members, weighs each from 0 to 100, and leaves some traffic. */
  predicate ValidWeights(weights: map<string, int>) {
    && weights != map[]
    && (forall member <- weights :: member != "" && 0 <= weights[member] <= 100)
    && exists member :: member in weights && weights[member] > 0
  }

  predicate ValidIntent(i: Intent) {
    && ValidCommon(i)
    && (i.kind in {FAILOVER, SWITCHBACK} ==> IsUuid(i.targetPoolId))
    && (i.kind == WEIGHT_UPDATE ==> ValidWeights(i.weights))
  }

  method Validate(i: Intent) returns (ok: bool)
    ensures ok == ValidIntent(i)
  {
    if !ValidCommon(i) { return false; }
    if i.kind == FAILOVER || i.kind == SWITCHBACK {
      if !IsUuid(i.targetPoolId) { return false; }
    } else if i.kind == WEIGHT_UPDATE {
      if |i.weights| == 0 { return false; }
      var total, remaining := 0, i.weights.Keys;
      while remaining != {}
        invariant remaining <= i.weights.Keys
        invariant forall member <- i.weights.Keys - remaining :: member != "" && 0 <= i.weights[member] <= 100
        invariant total >= 0
        invariant total > 0 <==> exists member :: member in i.weights.Keys - remaining && i.weights[member] > 0
        decreases |remaining|
      {
        var member :| member in remaining;
        var weight := i.weights[member];
        if member == "" || weight < 0 || weight > 100 { return false; }
        assert i.weights.Keys - (remaining - {member}) == i.weights.Keys - remaining + {member};
        total, remaining := total + weight, remaining - {member};
      }
      if total <= 0 { return false; }
    }
    return true;
  }

  /** The sum of the weights of the given members. */
  function Total(weights: map<string, int>, members: seq<string>): int
    requires forall member <- members :: member in weights
  {
    if members == [] then 0
    else weights[members[|members| - 1]] + Total(weights, members[..|members| - 1])
  }

  lemma {:induction false} TotalIsPositive(weights: map<string, int>, members: seq<string>)
    requires forall member <- members :: member in weights && weights[member] >= 0
    ensures Total(weights, members) >= 0
    ensures Total(weights, members) > 0 <==> exists k :: 0 <= k < |members| && weights[members[k]] > 0
  {
    if members != [] {
      var front := members[..|members| - 1];
      TotalIsPositive(weights, front);
      if Total(weights, front) > 0 {
        var k :| 0 <= k < |front| && weights[front[k]] > 0;
        assert weights[members[k]] > 0;
      }
    }
  }

  /** What a valid weight update promises: named members, each from 0 to 100, and in whatever order
      they are added up a positive total. */
  lemma WeightUpdateMovesTraffic(i: Intent, order: seq<string>)
    requires ValidIntent(i) && i.kind == WEIGHT_UPDATE
    requires (forall member :: member in order <==> member in i.weights)
    ensures |i.weights| > 0 && forall member <- i.weights :: member != "" && 0 <= i.weights[member] <= 100
    ensures Total(i.weights, order) > 0
  {
    TotalIsPositive(i.weights, order);
    var member :| member in i.weights && i.weights[member] > 0;
    var k :| 0 <= k < |order| && order[k] == member;
  }

  // ---- sorting --------------------------------------------------------------------------------

  /** Go's string order. The byte order of UTF-8 is the order of the runes. */
  predicate Leq(a: string, b: string) {
    a == "" || (b != "" && (a[0] < b[0] || (a[0] == b[0] && Leq(a[1..], b[1..]))))
  }

  lemma {:induction false} LeqAntisymmetric(a: string, b: string)
    requires Leq(a, b) && Leq(b, a)
    ensures a == b
  {
    if a != "" && b != "" {
      LeqAntisymmetric(a[1..], b[1..]);
      assert a == [a[0]] + a[1..] && b == [b[0]] + b[1..];
    }
  }

  lemma {:induction false} LeqTransitive(a: string, b: string, c: string)
    requires Leq(a, b) && Leq(b, c)
    ensures Leq(a, c)
  {
    if a != "" && a[0] == b[0] == c[0] { LeqTransitive(a[1..], b[1..], c[1..]); }
  }

  lemma {:induction false} LeqTotal(a: string, b: string)
    ensures Leq(a, b) || Leq(b, a)
  {
    if a != "" && b != "" && a[0] == b[0] { LeqTotal(a[1..], b[1..]); }
  }

  predicate Sorted(s: seq<string>) {
    forall i, j :: 0 <= i < j < |s| ==> Leq(s[i], s[j])
  }

  function Insert(x: string, s: seq<string>): (r: seq<string>)
    requires Sorted(s)
    ensures Sorted(r) && multiset(r) == multiset(s) + multiset{x}
  {
    if s == [] then [x]
    else
      LeqTotal(x, s[0]);
      assert s == [s[0]] + s[1..];
      if Leq(x, s[0]) then
        assert forall j :: 0 <= j < |s| ==> Leq(x, s[j]) by {
          forall j | 0 <= j < |s| ensures Leq(x, s[j]) { if j > 0 { LeqTransitive(x, s[0], s[j]); } }
        }
        [x] + s
      else
        var r := Insert(x, s[1..]);
        assert forall y <- r :: Leq(s[0], y) by {
          forall y <- r ensures Leq(s[0], y) { assert y in multiset(r); assert y == x || y in s[1..]; }
        }
        [s[0]] + r
  }

  /** sort.Strings. */
  function Sort(s: seq<string>): (r: seq<string>)
    ensures Sorted(r) && multiset(r) == multiset(s)
  {
    if s == [] then [] else
      assert s == [s[0]] + s[1..];
      Insert(s[0], Sort(s[1..]))
  }

  lemma SortedStartsLeast(a: seq<string>, b: seq<string>)
    requires Sorted(a) && Sorted(b) && multiset(a) == multiset(b) && a != [] && b != []
    ensures a[0] == b[0]
  {
    assert a[0] in multiset(b) && b[0] in multiset(a);
    var i :| 0 <= i < |b| && b[i] == a[0];
    var j :| 0 <= j < |a| && a[j] == b[0];
    if i > 0 && j > 0 { LeqAntisymmetric(a[0], b[0]); }
  }

  lemma TailMultiset(a: seq<string>)
    requires a != []
    ensures multiset(a[1..]) == multiset(a) - multiset{a[0]}
  {
    assert a == [a[0]] + a[1..];
  }

  lemma {:induction false} SortedIsUnique(a: seq<string>, b: seq<string>)
    requires Sorted(a) && Sorted(b) && multiset(a) == multiset(b)
    ensures a == b
  {
    assert |a| == |multiset(a)| == |b|;
    if a != [] {
      SortedStartsLeast(a, b);
      TailMultiset(a);
      TailMultiset(b);
      SortedIsUnique(a[1..], b[1..]);
      assert a == [a[0]] + a[1..] && b == [b[0]] + b[1..];
    }
  }

  // ---- the payload ----------------------------------------------------------------------------

  /** One member of the weight map, as "%q:%d" prints it. */
  function WeightText(member: string, weight: int, printable: Printable): string {
    Quoted(member, printable) + ":" + IntText(weight)
  }

  /** An order in which a map may be iterated: every key once. */
  predicate IsIteration(order: seq<string>, keys: set<string>) {
    multiset(order) == multiset(keys)
  }

  function WeightTexts(weights: map<string, int>, order: seq<string>, printable: Printable): seq<string>
    requires forall member <- order :: member in weights
  {
    seq(|order|, k requires 0 <= k < |order| => WeightText(order[k], weights[order[k]], printable))
  }

  function Braced(texts: seq<string>): string {
    "{" + Join(texts, ',') + "}"
  }

  /** strings.Join of the six fields with bars. */
  function JoinFields(i: Intent, weights: string): string {
    i.kind + "|" + (i.serviceId + "|" + (i.tenantId + "|" + i.targetPoolId + "|" + weights + "|" + i.drGroupRef))
  }

  lemma IterationCovers(order: seq<string>, keys: set<string>)
    requires IsIteration(order, keys)
    ensures forall member :: member in order <==> member in keys
  {
    forall member ensures member in order <==> member in keys {
      assert member in order <==> member in multiset(order);
    }
  }

  /** The payload when the weight map happens to be iterated in the given order. */
  function PayloadInOrder(i: Intent, order: seq<string>, printable: Printable): string
    requires IsIteration(order, i.weights.Keys)
  {
    IterationCovers(order, i.weights.Keys);
    JoinFields(i, Braced(Sort(WeightTexts(i.weights, order, printable))))
  }

  ghost function SomeIteration(keys: set<string>): (order: seq<string>)
    ensures IsIteration(order, keys)
  {
    if keys == {} then []
    else
      var member :| member in keys;
      assert keys == keys - {member} + {member};
      SomeIteration(keys - {member}) + [member]
  }

  ghost function Payload(i: Intent, printable: Printable): string {
    PayloadInOrder(i, SomeIteration(i.weights.Keys), printable)
  }

  /** semanticPayload: the weights are appended in whatever order the map yields them, then sorted. */
  method SemanticPayload(i: Intent, printable: Printable) returns (p: string)
    ensures p == Payload(i, printable)
  {
    var weights: seq<string>, remaining := [], i.weights.Keys;
    ghost var order: seq<string> := [];
    while remaining != {}
      invariant remaining <= i.weights.Keys
      invariant IsIteration(order, i.weights.Keys - remaining)
      invariant forall member <- order :: member in i.weights
      invariant weights == WeightTexts(i.weights, order, printable)
      decreases |remaining|
    {
      var member :| member in remaining;
      weights := weights + [WeightText(member, i.weights[member], printable)];
      assert i.weights.Keys - (remaining - {member}) == i.weights.Keys - remaining + {member};
      order, remaining := order + [member], remaining - {member};
    }
    assert i.weights.Keys - remaining == i.weights.Keys;
    OrderDoesNotMatter(i, order, SomeIteration(i.weights.Keys), printable);
    return JoinFields(i, Braced(Sort(weights)));
  }

  // ---- independence of iteration order --------------------------------------------------------

  lemma TextsOfOrder(weights: map<string, int>, order: seq<string>, printable: Printable)
    requires forall member <- order :: member in weights
    ensures forall text :: text in WeightTexts(weights, order, printable) <==>
              exists member :: member in order && text == WeightText(member, weights[member], printable)
  {
    var texts := WeightTexts(weights, order, printable);
    forall member <- order ensures WeightText(member, weights[member], printable) in texts {
      var k :| 0 <= k < |order| && order[k] == member;
      assert texts[k] in texts;
    }
  }

  lemma WeightTextIsInjective(m: string, v: int, n: string, w: int, printable: Printable)
    requires WeightText(m, v, printable) == WeightText(n, w, printable)
    ensures m == n && v == w
  {
    IntTextShape(v);
    IntTextShape(w);
    SplitAtLast(Quoted(m, printable), IntText(v), Quoted(n, printable), IntText(w), ':');
    IntTextIsInjective(v, w);
    assert EscapeAll(m, printable) == Quoted(m, printable)[1..|Quoted(m, printable)| - 1];
    assert EscapeAll(n, printable) == Quoted(n, printable)[1..|Quoted(n, printable)| - 1];
    EscapeAllIsInjective(m, n, printable);
  }

  lemma SameTextSameMember(weights: map<string, int>, m: string, n: string, printable: Printable)
    requires m in weights && n in weights
    ensures WeightText(m, weights[m], printable) == WeightText(n, weights[n], printable) <==> m == n
  {
    if WeightText(m, weights[m], printable) == WeightText(n, weights[n], printable) {
      WeightTextIsInjective(m, weights[m], n, weights[n], printable);
    }
  }

  lemma {:induction false} CountOfImages(order: seq<string>, images: seq<string>, member: string, image: string)
    requires |order| == |images|
    requires forall k :: 0 <= k < |order| ==> (images[k] == image <==> order[k] == member)
    ensures multiset(images)[image] == multiset(order)[member]
  {
    if order != [] {
      CountOfImages(order[1..], images[1..], member, image);
      assert order == [order[0]] + order[1..] && images == [images[0]] + images[1..];
    }
  }

  /** Different members give different texts, so a text occurs as often as its member. */
  lemma TextCount(weights: map<string, int>, order: seq<string>, member: string, printable: Printable)
    requires member in weights && forall other <- order :: other in weights
    ensures multiset(WeightTexts(weights, order, printable))[WeightText(member, weights[member], printable)]
            == multiset(order)[member]
  {
    var texts, text := WeightTexts(weights, order, printable), WeightText(member, weights[member], printable);
    forall k | 0 <= k < |order| ensures texts[k] == text <==> order[k] == member {
      SameTextSameMember(weights, order[k], member, printable);
    }
    CountOfImages(order, texts, member, text);
  }

  /** The payload does not depend on the order in which the weight map is iterated. */
  lemma OrderDoesNotMatter(i: Intent, order: seq<string>, other: seq<string>, printable: Printable)
    requires IsIteration(order, i.weights.Keys) && IsIteration(other, i.weights.Keys)
    ensures PayloadInOrder(i, order, printable) == PayloadInOrder(i, other, printable)
  {
    IterationCovers(order, i.weights.Keys);
    IterationCovers(other, i.weights.Keys);
    var a, b := WeightTexts(i.weights, order, printable), WeightTexts(i.weights, other, printable);
    TextsOfOrder(i.weights, order, printable);
    TextsOfOrder(i.weights, other, printable);
    forall text ensures multiset(a)[text] == multiset(b)[text] {
      if text in a || text in b {
        var member :| member in i.weights && text == WeightText(member, i.weights[member], printable);
        TextCount(i.weights, order, member, printable);
        TextCount(i.weights, other, member, printable);
      } else {
        assert text !in multiset(a) && text !in multiset(b);
      }
    }
    assert multiset(a) == multiset(b);
    SortedIsUnique(Sort(a), Sort(b));
  }

  // ---- reading the payload back ---------------------------------------------------------------

  lemma Separator(a: string, x: string, sep: char, s: string)
    requires s == a + [sep] + x
    ensures |a| < |s| && s[|a|] == sep && a == s[..|a|] && x == s[|a| + 1..]
    ensures sep !in a ==> forall k :: 0 <= k < |a| ==> s[k] != sep
    ensures sep !in x ==> forall k :: |a| < k < |s| ==> s[k] != sep
  {
    assert forall k :: 0 <= k < |a| ==> s[k] == a[k];
    assert forall k :: |a| < k < |s| ==> s[k] == x[k - |a| - 1];
  }

  lemma SplitAtFirst(a: string, x: string, b: string, y: string, sep: char)
    requires a + [sep] + x == b + [sep] + y && sep !in a && sep !in b
    ensures a == b && x == y
  {
    Separator(a, x, sep, a + [sep] + x);
    Separator(b, y, sep, a + [sep] + x);
    assert |a| == |b|;
  }

  lemma SplitAtLast(a: string, x: string, b: string, y: string, sep: char)
    requires a + [sep] + x == b + [sep] + y && sep !in x && sep !in y
    ensures a == b && x == y
  {
    Separator(a, x, sep, a + [sep] + x);
    Separator(b, y, sep, a + [sep] + x);
    assert |a| == |b|;
  }

  predicate OpensWeights(head: string) {
    head != "" && (head[|head| - 1] == '{' || head[|head| - 1] == ',')
  }

  /** After the opening quote, every quote has a backslash before it; the opening quote has none. */
  lemma OpeningQuote(p: string, a: string, s: string)
    requires s == p + "\"" + a && OpensWeights(p) && QuotesEscaped(a)
    ensures s[|p|] == '"' && s[|p| - 1] != '\\'
    ensures forall k :: |p| < k < |s| && s[k] == '"' ==> s[k - 1] == '\\'
  {
    forall k | |p| < k < |s| && s[k] == '"' ensures s[k - 1] == '\\' {
      assert a[k - |p| - 1] == '"';
    }
  }

  /** The reader inside quotes, going left: the opening quote is the first one that no backslash
      precedes, so the text between the quotes is determined. */
  lemma QuoteReadsBack(p: string, a: string, q: string, b: string)
    requires p + "\"" + a == q + "\"" + b
    requires OpensWeights(p) && OpensWeights(q) && QuotesEscaped(a) && QuotesEscaped(b)
    ensures p == q && a == b
  {
    var s := p + "\"" + a;
    OpeningQuote(p, a, s);
    OpeningQuote(q, b, s);
    assert |p| == |q|;
    assert p == s[..|p|] && q == s[..|q|] && a == s[|p| + 1..] && b == s[|q| + 1..];
  }

  ghost predicate IsWeightText(text: string, printable: Printable) {
    exists member, weight :: text == WeightText(member, weight, printable)
  }

  lemma Regroup(p: string, a: string, d: string)
    ensures p + ("\"" + a + "\"" + ":" + d) == (p + "\"" + a + "\"") + [':'] + d
    ensures (p + "\"" + a + "\"")[..|p| + 1 + |a|] == p + "\"" + a
  {}

  lemma RawWeightReadsBack(p: string, a: string, d: string, q: string, b: string, e: string)
    requires p + ("\"" + a + "\"" + ":" + d) == q + ("\"" + b + "\"" + ":" + e)
    requires OpensWeights(p) && OpensWeights(q) && QuotesEscaped(a) && QuotesEscaped(b) && ':' !in d && ':' !in e
    ensures p == q && a == b && d == e
  {
    Regroup(p, a, d);
    Regroup(q, b, e);
    SplitAtLast(p + "\"" + a + "\"", d, q + "\"" + b + "\"", e, ':');
    QuoteReadsBack(p, a, q, b);
  }

  /** The last weight of a list can be read off its right end, whatever stands before the list. */
  lemma WeightReadsBack(p: string, text: string, q: string, other: string, printable: Printable)
    requires p + text == q + other && OpensWeights(p) && OpensWeights(q)
    requires IsWeightText(text, printable) && IsWeightText(other, printable)
    ensures p == q && text == other
  {
    var m, v :| text == WeightText(m, v, printable);
    var n, w :| other == WeightText(n, w, printable);
    IntTextShape(v);
    IntTextShape(w);
    EscapeAllHidesQuotes(m, printable);
    EscapeAllHidesQuotes(n, printable);
    RawWeightReadsBack(p, EscapeAll(m, printable), IntText(v), q, EscapeAll(n, printable), IntText(w));
  }

  lemma {:induction false} JoinLast(texts: seq<string>, text: string)
    requires texts != []
    ensures Join(texts + [text], ',') == Join(texts, ',') + "," + text
  {
    if |texts| > 1 {
      JoinLast(texts[1..], text);
      assert (texts + [text])[1..] == texts[1..] + [text];
    } else {
      assert (texts + [text])[1..] == [text];
    }
  }

  /** The text of a list whose closing brace is still to come. */
  function Listed(p: string, texts: seq<string>): string {
    p + "{" + Join(texts, ',')
  }

  /** Everything up to the last weight of a list. */
  function BeforeLast(p: string, texts: seq<string>): string
    requires texts != []
  {
    if |texts| == 1 then p + "{" else Listed(p, texts[..|texts| - 1]) + ","
  }

  lemma LastWeight(p: string, texts: seq<string>)
    requires texts != []
    ensures Listed(p, texts) == BeforeLast(p, texts) + texts[|texts| - 1]
  {
    if |texts| > 1 {
      var front, last := texts[..|texts| - 1], texts[|texts| - 1];
      assert texts == front + [last];
      JoinLast(front, last);
      assert p + "{" + (Join(front, ',') + "," + last) == p + "{" + Join(front, ',') + "," + last;
    }
  }

  lemma BeforeLastEnds(p: string, texts: seq<string>)
    requires texts != []
    ensures var h := BeforeLast(p, texts);
      && OpensWeights(h) && h[|h| - 1] == (if |texts| == 1 then '{' else ',')
      && h[..|h| - 1] == if |texts| == 1 then p else Listed(p, texts[..|texts| - 1])
  {}

  lemma ListEnds(p: string, texts: seq<string>, printable: Printable)
    requires forall text <- texts :: IsWeightText(text, printable)
    ensures Listed(p, texts)[|Listed(p, texts)| - 1] == '{' <==> texts == []
  {
    if texts != [] {
      var last := texts[|texts| - 1];
      assert last in texts;
      LastWeight(p, texts);
      var m, v :| last == WeightText(m, v, printable);
      IntTextShape(v);
      assert last[|last| - 1] == IntText(v)[|IntText(v)| - 1] && last[|last| - 1] in IntText(v);
    }
  }

  lemma LastWeightReadsBack(p: string, texts: seq<string>, q: string, others: seq<string>, printable: Printable)
    requires Listed(p, texts) == Listed(q, others) && texts != [] && others != []
    requires forall text <- texts :: IsWeightText(text, printable)
    requires forall text <- others :: IsWeightText(text, printable)
    ensures texts[|texts| - 1] == others[|others| - 1]
    ensures |texts| == 1 <==> |others| == 1
    ensures if |texts| == 1 then p == q else Listed(p, texts[..|texts| - 1]) == Listed(q, others[..|others| - 1])
  {
    LastWeight(p, texts);
    LastWeight(q, others);
    BeforeLastEnds(p, texts);
    BeforeLastEnds(q, others);
    assert texts[|texts| - 1] in texts && others[|others| - 1] in others;
    WeightReadsBack(BeforeLast(p, texts), texts[|texts| - 1], BeforeLast(q, others), others[|others| - 1], printable);
  }

  /** The whole list of weights can be read from right to left out of any text that ends with it. */
  lemma {:induction false} WeightsReadBack(p: string, texts: seq<string>, q: string, others: seq<string>,
                                           printable: Printable)
    requires Listed(p, texts) == Listed(q, others)
    requires forall text <- texts :: IsWeightText(text, printable)
    requires forall text <- others :: IsWeightText(text, printable)
    ensures p == q && texts == others
    decreases |texts|
  {
    ListEnds(p, texts, printable);
    ListEnds(q, others, printable);
    if texts == [] {
      assert p == Listed(p, [])[..|p|] && q == Listed(q, [])[..|q|];
    } else {
      var front, front' := texts[..|texts| - 1], others[..|others| - 1];
      LastWeightReadsBack(p, texts, q, others, printable);
      assert texts == front + [texts[|texts| - 1]] && others == front' + [others[|others| - 1]];
      if |texts| > 1 { WeightsReadBack(p, front, q, front', printable); }
    }
  }

  // ---- when two payloads are equal ------------------------------------------------------------

  /** The list of weight texts between the braces. */
  ghost function WeightList(i: Intent, printable: Printable): seq<string> {
    IterationCovers(SomeIteration(i.weights.Keys), i.weights.Keys);
    Sort(WeightTexts(i.weights, SomeIteration(i.weights.Keys), printable))
  }

  lemma WeightListMeaning(i: Intent, printable: Printable)
    ensures forall text <- WeightList(i, printable) ::
              exists member :: member in i.weights && text == WeightText(member, i.weights[member], printable)
    ensures forall member <- i.weights :: WeightText(member, i.weights[member], printable) in WeightList(i, printable)
  {
    var order := SomeIteration(i.weights.Keys);
    IterationCovers(order, i.weights.Keys);
    TextsOfOrder(i.weights, order, printable);
    var texts := WeightTexts(i.weights, order, printable);
    forall text ensures text in WeightList(i, printable) <==> text in texts {
      assert text in WeightList(i, printable) <==> text in multiset(WeightList(i, printable));
    }
  }

  lemma WeightListDecidesMap(i: Intent, j: Intent, printable: Printable)
    requires WeightList(i, printable) == WeightList(j, printable)
    ensures i.weights == j.weights
  {
    forall member <- i.weights ensures member in j.weights && j.weights[member] == i.weights[member] {
      WeightListDecidesMember(i, j, member, printable);
    }
    forall member <- j.weights ensures member in i.weights {
      WeightListDecidesMember(j, i, member, printable);
    }
  }

  lemma WeightListDecidesMember(i: Intent, j: Intent, member: string, printable: Printable)
    requires WeightList(i, printable) == WeightList(j, printable) && member in i.weights
    ensures member in j.weights && j.weights[member] == i.weights[member]
  {
    WeightListMeaning(i, printable);
    WeightListMeaning(j, printable);
    var text := WeightText(member, i.weights[member], printable);
    assert text in WeightList(j, printable);
    var n :| n in j.weights && text == WeightText(n, j.weights[n], printable);
    WeightTextIsInjective(member, i.weights[member], n, j.weights[n], printable);
  }

  lemma UuidHasNoBar(s: string)
    requires IsUuid(s)
    ensures '|' !in s
  {}

  lemma GroupRefHasNoBar(s: string)
    requires IsGroupRef(s)
    ensures '|' !in s
  {
    assert s == [s[0]] + s[1..];
    forall c <- s ensures c != '|' {
      if c !in s[1..] { assert c == s[0]; }
    }
  }

  lemma KindHasNoBar(kind: string)
    requires kind in {FAILOVER, SWITCHBACK, WEIGHT_UPDATE, DRILL}
    ensures '|' !in kind
  {}

  lemma NoBars(i: Intent)
    requires ValidIntent(i)
    ensures '|' !in i.kind && '|' !in i.serviceId && '|' !in i.drGroupRef
    ensures i.kind in {FAILOVER, SWITCHBACK} ==> '|' !in i.targetPoolId
  {
    KindHasNoBar(i.kind);
    UuidHasNoBar(i.serviceId);
    if i.kind in {FAILOVER, SWITCHBACK} { UuidHasNoBar(i.targetPoolId); }
    if i.drGroupRef != "" { GroupRefHasNoBar(i.drGroupRef); }
  }

  /** Two valid intents have the same payload exactly when kind, service, weights and DR reference
      agree and tenant and pool, joined by a bar, agree. Tenant and member names may hold bars,
      quotes, braces or anything else. */
  lemma PayloadsAgree(i: Intent, j: Intent, printable: Printable)
    requires ValidIntent(i) && ValidIntent(j)
    ensures Payload(i, printable) == Payload(j, printable) <==>
              && i.kind == j.kind && i.serviceId == j.serviceId
              && i.tenantId + "|" + i.targetPoolId == j.tenantId + "|" + j.targetPoolId
              && i.weights == j.weights && i.drGroupRef == j.drGroupRef
  {
    if Payload(i, printable) == Payload(j, printable) {
      PayloadReadsBack(i, j, printable);
    } else if && i.kind == j.kind && i.serviceId == j.serviceId
              && i.tenantId + "|" + i.targetPoolId == j.tenantId + "|" + j.targetPoolId
              && i.weights == j.weights && i.drGroupRef == j.drGroupRef {
      PayloadShape(i, printable);
      PayloadShape(j, printable);
    }
  }

  function MiddleAndWeights(i: Intent, texts: seq<string>): string {
    Listed(i.tenantId + "|" + i.targetPoolId + "|", texts)
  }

  lemma RegroupMiddle(tenant: string, pool: string, list: string, dr: string)
    ensures tenant + "|" + pool + "|" + ("{" + list + "}") + "|" + dr ==
              (tenant + "|" + pool + "|" + "{" + list) + "}" + ['|'] + dr
  {}

  lemma PayloadShape(i: Intent, printable: Printable)
    ensures Payload(i, printable) ==
              i.kind + ['|']
              + (i.serviceId + ['|'] + (MiddleAndWeights(i, WeightList(i, printable)) + "}" + ['|'] + i.drGroupRef))
  {
    RegroupMiddle(i.tenantId, i.targetPoolId, Join(WeightList(i, printable), ','), i.drGroupRef);
  }

  lemma OuterFieldsReadBack(kind: string, service: string, x: string, dr: string,
                            kind': string, service': string, y: string, dr': string)
    requires kind + ['|'] + (service + ['|'] + (x + "}" + ['|'] + dr))
             == kind' + ['|'] + (service' + ['|'] + (y + "}" + ['|'] + dr'))
    requires '|' !in kind && '|' !in kind' && '|' !in service && '|' !in service' && '|' !in dr && '|' !in dr'
    ensures kind == kind' && service == service' && x == y && dr == dr'
  {
    SplitAtFirst(kind, service + ['|'] + (x + "}" + ['|'] + dr),
                 kind', service' + ['|'] + (y + "}" + ['|'] + dr'), '|');
    SplitAtFirst(service, x + "}" + ['|'] + dr, service', y + "}" + ['|'] + dr', '|');
    SplitAtLast(x + "}", dr, y + "}", dr', '|');
    assert x == (x + "}")[..|x|] && y == (y + "}")[..|y|];
  }

  lemma MiddleReadsBack(i: Intent, j: Intent, printable: Printable)
    requires MiddleAndWeights(i, WeightList(i, printable)) == MiddleAndWeights(j, WeightList(j, printable))
    ensures i.tenantId + "|" + i.targetPoolId == j.tenantId + "|" + j.targetPoolId
    ensures i.weights == j.weights
  {
    WeightListMeaning(i, printable);
    WeightListMeaning(j, printable);
    var p, q := i.tenantId + "|" + i.targetPoolId + "|", j.tenantId + "|" + j.targetPoolId + "|";
    WeightsReadBack(p, WeightList(i, printable), q, WeightList(j, printable), printable);
    assert i.tenantId + "|" + i.targetPoolId == p[..|p| - 1] && j.tenantId + "|" + j.targetPoolId == q[..|q| - 1];
    WeightListDecidesMap(i, j, printable);
  }

  lemma PayloadReadsBack(i: Intent, j: Intent, printable: Printable)
    requires ValidIntent(i) && ValidIntent(j) && Payload(i, printable) == Payload(j, printable)
    ensures i.kind == j.kind && i.serviceId == j.serviceId
    ensures i.tenantId + "|" + i.targetPoolId == j.tenantId + "|" + j.targetPoolId
    ensures i.weights == j.weights && i.drGroupRef == j.drGroupRef
  {
    NoBars(i);
    NoBars(j);
    PayloadShape(i, printable);
    PayloadShape(j, printable);
    OuterFieldsReadBack(i.kind, i.serviceId, MiddleAndWeights(i, WeightList(i, printable)), i.drGroupRef,
                        j.kind, j.serviceId, MiddleAndWeights(j, WeightList(j, printable)), j.drGroupRef);
    MiddleReadsBack(i, j, printable);
  }

  /** When no pool id holds a bar (failover and switchback guarantee it), the payload determines
      every field it is made of. */
  lemma PayloadIsInjective(i: Intent, j: Intent, printable: Printable)
    requires ValidIntent(i) && ValidIntent(j)
    requires i.kind in {WEIGHT_UPDATE, DRILL} ==> '|' !in i.targetPoolId
    requires j.kind in {WEIGHT_UPDATE, DRILL} ==> '|' !in j.targetPoolId
    ensures Payload(i, printable) == Payload(j, printable) <==>
              && i.kind == j.kind && i.serviceId == j.serviceId && i.tenantId == j.tenantId
              && i.targetPoolId == j.targetPoolId && i.weights == j.weights && i.drGroupRef == j.drGroupRef
  {
    NoBars(i);
    NoBars(j);
    PayloadsAgree(i, j, printable);
    if i.tenantId + "|" + i.targetPoolId == j.tenantId + "|" + j.targetPoolId {
      SplitAtLast(i.tenantId, i.targetPoolId, j.tenantId, j.targetPoolId, '|');
    }
  }

  /** Drills and weight updates do not check the pool id, and a bar in it lets two different
      intents share a payload. */
  lemma BarsInPoolsCollide(i: Intent, printable: Printable)
    requires ValidIntent(i) && i.kind == DRILL
    requires i.tenantId == "a|b" && i.targetPoolId == "c"
    ensures var j := i.(tenantId := "a", targetPoolId := "b|c");
            j != i && ValidIntent(j) && Payload(i, printable) == Payload(j, printable)
  {
    var j := i.(tenantId := "a", targetPoolId := "b|c");
    assert ByteLength("a") == 1;
    PayloadsAgree(i, j, printable);
  }
}
