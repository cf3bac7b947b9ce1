/**
 The duplicate-field scanner (rejectDuplicateJSONFields in pkg/iam/key_manifest.go), a pushdown
 machine over decoder tokens, proved against JSON trees (section 4 of RFC 8259: names within an
 object should be unique).
 */
module JsonFields {
  import opened Sets

  datatype Json =
    | Literal(text: string)                     // a number, true, false or null
    | Text(value: string)
    | Array(items: Items)
    | Object(members: Members)
  datatype Items = NoItems | Item(first: Json, others: Items)
  datatype Members = NoMembers | Member(name: string, value: Json, rest: Members)

  /** What decoder.Token returns; commas and colons are consumed by the decoder. */
  datatype Token = OpenObject | CloseObject | OpenArray | CloseArray | TextToken(value: string)
    | LiteralToken(text: string)

  function Tokens(v: Json): seq<Token> {
    match v
    case Literal(text) => [LiteralToken(text)]
    case Text(value) => [TextToken(value)]
    case Array(items) => [OpenArray] + ItemTokens(items) + [CloseArray]
    case Object(members) => [OpenObject] + MemberTokens(members) + [CloseObject]
  }

  function ItemTokens(items: Items): seq<Token> {
    match items
    case NoItems => []
    case Item(first, others) => Tokens(first) + ItemTokens(others)
  }

  function MemberTokens(members: Members): seq<Token> {
    match members
    case NoMembers => []
    case Member(name, value, rest) => [TextToken(name)] + Tokens(value) + MemberTokens(rest)
  }

  // ---- what the scanner is for ----------------------------------------------------------------

  function Names(members: Members): seq<string> {
    match members
    case NoMembers => []
    case Member(name, _, rest) => [name] + Names(rest)
  }

  /** No object at any depth of the value repeats a field name. */
  predicate UniqueFields(v: Json) {
    match v
    case Literal(_) => true
    case Text(_) => true
    case Array(items) => UniqueInItems(items)
    case Object(members) => Distinct(Names(members)) && UniqueInMembers(members)
  }

  predicate UniqueInItems(items: Items) {
    match items
    case NoItems => true
    case Item(first, others) => UniqueFields(first) && UniqueInItems(others)
  }

  predicate UniqueInMembers(members: Members) {
    match members
    case NoMembers => true
    case Member(_, value, rest) => UniqueFields(value) && UniqueInMembers(rest)
  }

  // ---- the scanner ----------------------------------------------------------------------------

  datatype Frame = Frame(isObject: bool, expectingKey: bool, keys: set<string>)

  /** The stack, its top last, once a value inside the top frame is complete. */
  function Completed(stack: seq<Frame>): seq<Frame> {
    if stack != [] && stack[|stack| - 1].isObject
    then stack[|stack| - 1 := stack[|stack| - 1].(expectingKey := true)]
    else stack
  }

  datatype Scan = Scanning(stack: seq<Frame>) | Rejected

  /** One turn of the scanner's loop. */
  function Step(stack: seq<Frame>, token: Token): Scan {
    match token
    case OpenObject => Scanning(stack + [Frame(true, true, {})])
    case OpenArray => Scanning(stack + [Frame(false, false, {})])
    case CloseObject =>
      if stack == [] || !stack[|stack| - 1].isObject || !stack[|stack| - 1].expectingKey then Rejected
      else Scanning(Completed(stack[..|stack| - 1]))
    case CloseArray =>
      if stack == [] || stack[|stack| - 1].isObject then Rejected else Scanning(Completed(stack[..|stack| - 1]))
    case _ =>
      if stack == [] || !stack[|stack| - 1].isObject then Scanning(stack)
      else
        var top := stack[|stack| - 1];
        if !top.expectingKey then Scanning(stack[|stack| - 1 := top.(expectingKey := true)])
        else if !token.TextToken? || token.value in top.keys then Rejected
        else Scanning(stack[|stack| - 1 := top.(keys := top.keys + {token.value}, expectingKey := false)])
  }

  /** Whether the scanner, with this stack, gets through all the tokens. */
  predicate Accepts(stack: seq<Frame>, tokens: seq<Token>)
    decreases |tokens|
  {
    tokens == [] ||
    var next := Step(stack, tokens[0]);
    next.Scanning? && Accepts(next.stack, tokens[1..])
  }

  /** The loop itself, over the tokens of well-formed input. */
  method RejectDuplicateFields(tokens: seq<Token>) returns (ok: bool)
    ensures ok == Accepts([], tokens)
  {
    var stack: seq<Frame> := [];
    var i := 0;
    while i < |tokens|
      invariant 0 <= i <= |tokens|
      invariant Accepts([], tokens) == Accepts(stack, tokens[i..])
    {
      var token := tokens[i];
      assert tokens[i..][0] == token && tokens[i..][1..] == tokens[i + 1..];
      i := i + 1;
      if token.OpenObject? {
        stack := stack + [Frame(true, true, {})];
      } else if token.OpenArray? {
        stack := stack + [Frame(false, false, {})];
      } else if token.CloseObject? || token.CloseArray? {
        if stack == [] || (token.CloseObject? && (!stack[|stack| - 1].isObject || !stack[|stack| - 1].expectingKey))
           || (token.CloseArray? && stack[|stack| - 1].isObject) {
          return false;
        }
        stack := stack[..|stack| - 1];
        if stack != [] && stack[|stack| - 1].isObject {
          stack := stack[|stack| - 1 := stack[|stack| - 1].(expectingKey := true)];
        }
      } else if stack != [] && stack[|stack| - 1].isObject {
        var current := stack[|stack| - 1];
        if current.expectingKey {
          if !token.TextToken? { return false; }
          if token.value in current.keys { return false; }
          stack := stack[|stack| - 1 := current.(keys := current.keys + {token.value}, expectingKey := false)];
        } else {
          stack := stack[|stack| - 1 := current.(expectingKey := true)];
        }
      }
    }
    return true;
  }

  // ---- the scanner against trees --------------------------------------------------------------

  predicate AwaitsValue(stack: seq<Frame>) {
    stack == [] || !stack[|stack| - 1].isObject || !stack[|stack| - 1].expectingKey
  }

  /** Reading one value: it must be free of repeated names, and then the frame below is complete. */
  lemma {:induction false} ScansValue(stack: seq<Frame>, v: Json, rest: seq<Token>)
    requires AwaitsValue(stack)
    ensures Accepts(stack, Tokens(v) + rest) == (UniqueFields(v) && Accepts(Completed(stack), rest))
    decreases v
  {
    var all := Tokens(v) + rest;
    match v
    case Literal(_) => assert all[1..] == rest;
    case Text(_) => assert all[1..] == rest;
    case Array(items) =>
      assert all[1..] == ItemTokens(items) + ([CloseArray] + rest);
      ScansItems(stack + [Frame(false, false, {})], items, rest);
      assert (stack + [Frame(false, false, {})])[..|stack|] == stack;
    case Object(members) =>
      assert all[1..] == MemberTokens(members) + ([CloseObject] + rest);
      ScansMembers(stack, {}, members, rest);
  }

  lemma {:induction false} ScansItems(stack: seq<Frame>, items: Items, rest: seq<Token>)
    requires stack != [] && !stack[|stack| - 1].isObject
    ensures Accepts(stack, ItemTokens(items) + ([CloseArray] + rest))
            == (UniqueInItems(items) && Accepts(Completed(stack[..|stack| - 1]), rest))
    decreases items
  {
    match items
    case NoItems =>
      assert [] + ([CloseArray] + rest) == [CloseArray] + rest;
      assert ([CloseArray] + rest)[1..] == rest;
    case Item(first, others) =>
      var tail := ItemTokens(others) + ([CloseArray] + rest);
      assert ItemTokens(items) + ([CloseArray] + rest) == Tokens(first) + tail;
      ScansValue(stack, first, tail);
      ScansItems(stack, others, rest);
  }

  /** Reading the rest of an object whose names so far are in seen. */
  lemma {:induction false} ScansMembers(below: seq<Frame>, seen: set<string>, members: Members, rest: seq<Token>)
    ensures Accepts(below + [Frame(true, true, seen)], MemberTokens(members) + ([CloseObject] + rest))
            == (&& Distinct(Names(members)) && (forall name <- Names(members) :: name !in seen)
                && UniqueInMembers(members) && Accepts(Completed(below), rest))
    decreases members
  {
    var stack := below + [Frame(true, true, seen)];
    match members
    case NoMembers =>
      assert [] + ([CloseObject] + rest) == [CloseObject] + rest;
      assert ([CloseObject] + rest)[1..] == rest && stack[..|below|] == below;
    case Member(name, value, others) =>
      var tail := MemberTokens(others) + ([CloseObject] + rest);
      var all := MemberTokens(members) + ([CloseObject] + rest);
      assert all == [TextToken(name)] + (Tokens(value) + tail);
      assert all[1..] == Tokens(value) + tail;
      DistinctSplits(name, Names(others), seen);
      if name !in seen {
        var named := below + [Frame(true, false, seen + {name})];
        assert Step(stack, TextToken(name)) == Scanning(named);
        ScansValue(named, value, tail);
        assert Completed(named) == below + [Frame(true, true, seen + {name})];
        ScansMembers(below, seen + {name}, others, rest);
      }
  }

  lemma DistinctSplits(name: string, others: seq<string>, seen: set<string>)
    ensures (Distinct([name] + others) && forall other <- [name] + others :: other !in seen)
            <==> (name !in seen && Distinct(others) && forall other <- others :: other !in seen + {name})
  {
    var all := [name] + others;
    if Distinct(all) && forall other <- all :: other !in seen {
      forall i, j | 0 <= i < j < |others| ensures others[i] != others[j] { assert all[i + 1] != all[j + 1]; }
      forall other <- others ensures other !in seen + {name} {
        var i :| 0 <= i < |others| && others[i] == other;
        assert all[0] != all[i + 1] && other in all;
      }
      assert name in all;
    }
    if name !in seen && Distinct(others) && forall other <- others :: other !in seen + {name} {
      forall i, j | 0 <= i < j < |all| ensures all[i] != all[j] {
        assert all[j] == others[j - 1] && others[j - 1] in others;
      }
    }
  }

  /** For the token stream of every JSON value the scanner accepts exactly when no object at any
      depth repeats a field name. */
  lemma ScannerIsExact(v: Json)
    ensures Accepts([], Tokens(v)) == UniqueFields(v)
  {
    ScansValue([], v, []);
    assert Tokens(v) + [] == Tokens(v);
  }

  /** The same for a file holding any number of values one after the other. */
  lemma {:induction false} ScannerIsExactOnFiles(values: Items)
    ensures Accepts([], ItemTokens(values)) == UniqueInItems(values)
  {
    match values
    case NoItems =>
    case Item(first, others) =>
      ScansValue([], first, ItemTokens(others));
      ScannerIsExactOnFiles(others);
  }
}
