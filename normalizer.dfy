/** The rule normaliser: the canonical text under which the store keeps and
    compares rules, and the argument quoting that EnsureRule applies first. */
module Normalizer {
  import opened Text
  import opened IPTablesTypes

  const ToDestinationAssign := "--to-destination="
  const ToDestinationFlag := "--to-destination"

  /** The prefix length the normaliser appends to an unprefixed address. */
  function AddressSuffix(family: IPFamily): string {
    match family
    case IPv4 => "/32"
    case IPv6 => "/128"
    case NotIP => ""
  }

  /** One token as the normaliser emits it: suffixed by its address family,
      then trimmed of white space. */
  function CanonicalArg(arg: string, ipFamily: string -> IPFamily): string {
    TrimSpace(arg + AddressSuffix(ipFamily(arg)))
  }

  /** Appends `arg` to the output, after a single space unless the output is
      still empty. */
  function Appended(normalized: string, arg: string): string {
    if normalized != "" then normalized + " " + arg else arg
  }

  /** A `--to-destination=` token at the head of the input is split at its
      first `=`. */
  function Rewritten(remaining: string): (r: string)
    ensures |r| == |remaining|
  {
    if HasPrefix(remaining, ToDestinationAssign) then ReplaceFirst(remaining, '=', ' ') else remaining
  }

  /** Where the token at the head of `remaining` ends: just past its closing
      quote when it opens with one, otherwise at the first space or at the
      end; -1 when an opening quote is never closed. */
  function TokenEnd(remaining: string): (end: int)
    requires |remaining| > 0
    ensures -1 <= end <= |remaining|
  {
    if remaining[0] == '"' then
      var q := Index(remaining[1..], '"');
      if q < 0 then -1 else q + 2
    else
      var sp := Index(remaining, ' ');
      if sp < 0 then |remaining| else sp
  }

  /** Where the head token ends, stated outright: a quoted token runs to the
      first quote after the opening one, or has none (-1); any other token
      runs to the first space, or to the end. */
  lemma TokenEndMeaning(remaining: string)
    requires |remaining| > 0
    ensures var end := TokenEnd(remaining);
      && (remaining[0] == '"' ==>
            && (end == -1 <==> forall k :: 1 <= k < |remaining| ==> remaining[k] != '"')
            && (end != -1 ==> 2 <= end <= |remaining| && remaining[end - 1] == '"'
                              && forall k :: 1 <= k < end - 1 ==> remaining[k] != '"'))
      && (remaining[0] != '"' ==>
            && 0 <= end <= |remaining| && (end == |remaining| || remaining[end] == ' ')
            && forall k :: 0 <= k < end ==> remaining[k] != ' ')
  {
    if remaining[0] == '"' {
      var tail := remaining[1..];
      assert forall k :: 1 <= k < |remaining| ==> remaining[k] == tail[k - 1];
    }
  }

  /** The normaliser's loop, run from the state (`remaining`, `normalized`). */
  function NormalizeFrom(remaining: string, normalized: string, ipFamily: string -> IPFamily): Result<string>
    decreases |remaining|
  {
    var rem := Rewritten(remaining);
    if |rem| == 0 then Err(IndexOutOfRange)
    else
      var end := TokenEnd(rem);
      if end < 0 then Err(MismatchedQuotes)
      else
        var out := Appended(normalized, CanonicalArg(rem[..end], ipFamily));
        if end == |rem| then Ok(out)
        else NormalizeFrom(rem[end + 1..], out, ipFamily)
  }

  /** The canonical form of a rule, or why it has none. */
  function Normalize(rule: string, ipFamily: string -> IPFamily): Result<string> {
    NormalizeFrom(TrimSpace(rule), "", ipFamily)
  }

  /** normalizeRule, step by step as the source runs it. */
  method NormalizeRule(rule: string, ipFamily: string -> IPFamily) returns (r: Result<string>)
    ensures r == Normalize(rule, ipFamily)
  {
    var normalized := "";
    var remaining := TrimSpace(rule);
    while true
      invariant NormalizeFrom(remaining, normalized, ipFamily) == Normalize(rule, ipFamily)
      decreases |remaining|
    {
      ghost var before := remaining;
      ghost var acc := normalized;
      if HasPrefix(remaining, ToDestinationAssign) {
        remaining := ReplaceFirst(remaining, '=', ' ');
      }
      assert remaining == Rewritten(before);
      if |remaining| == 0 {
        return Err(IndexOutOfRange);
      }
      var end := TokenEnd(remaining);
      if end < 0 {
        return Err(MismatchedQuotes);
      }
      var arg := remaining[..end];
      ghost var token := arg;
      match ipFamily(arg) {
        case IPv4 => arg := arg + "/32";
        case IPv6 => arg := arg + "/128";
        case NotIP =>
      }
      assert arg == token + AddressSuffix(ipFamily(token));
      if normalized != "" {
        normalized := normalized + " ";
      }
      normalized := normalized + TrimSpace(arg);
      assert normalized == Appended(acc, CanonicalArg(token, ipFamily));
      if |remaining| == end {
        return Ok(normalized);
      }
      remaining := remaining[end + 1..];
    }
  }

  // ----- What the normaliser does to rules made of well-formed tokens -----

  /** A token without white space and quotes; a `--to-destination=` token
      carries a non-empty value that is itself such a token. */
  predicate PlainToken(tok: string)
    decreases |tok|
  {
    && |tok| > 0
    && (forall k :: 0 <= k < |tok| ==> !IsSpace(tok[k]) && tok[k] != '"')
    && (HasPrefix(tok, ToDestinationAssign) ==> PlainToken(tok[|ToDestinationAssign|..]))
  }

  /** An opening quote, text without quotes, a closing quote. */
  predicate QuotedToken(tok: string) {
    && |tok| >= 2 && tok[0] == '"' && tok[|tok| - 1] == '"'
    && forall k :: 1 <= k < |tok| - 1 ==> tok[k] != '"'
  }

  predicate WellFormedToken(tok: string) {
    PlainToken(tok) || QuotedToken(tok)
  }

  predicate AllWellFormed(toks: seq<string>) {
    forall k :: 0 <= k < |toks| ==> WellFormedToken(toks[k])
  }

  /** A bare address token with the prefix length of a single host. */
  function WithPrefixLength(tok: string, ipFamily: string -> IPFamily): string {
    tok + AddressSuffix(ipFamily(tok))
  }

  /** What one token stands for in canonical form: `--to-destination=X` is the
      flag and then X; an unprefixed address gains its host prefix length;
      everything else is kept as it is. */
  function CanonicalTokens(tok: string, ipFamily: string -> IPFamily): seq<string>
    decreases |tok|
  {
    if |tok| > |ToDestinationAssign| && HasPrefix(tok, ToDestinationAssign) then
      [WithPrefixLength(ToDestinationFlag, ipFamily)] + CanonicalTokens(tok[|ToDestinationAssign|..], ipFamily)
    else
      [WithPrefixLength(tok, ipFamily)]
  }

  function CanonicalAll(toks: seq<string>, ipFamily: string -> IPFamily): seq<string>
    decreases |toks|
  {
    if toks == [] then [] else CanonicalTokens(toks[0], ipFamily) + CanonicalAll(toks[1..], ipFamily)
  }

  function AppendedAll(normalized: string, args: seq<string>): string
    decreases |args|
  {
    if args == [] then normalized else AppendedAll(Appended(normalized, args[0]), args[1..])
  }

  lemma {:induction false} AppendedAllConcat(acc: string, xs: seq<string>, ys: seq<string>)
    ensures AppendedAll(acc, xs + ys) == AppendedAll(AppendedAll(acc, xs), ys)
    decreases |xs|
  {
    if xs != [] {
      assert (xs + ys)[1..] == xs[1..] + ys;
      AppendedAllConcat(Appended(acc, xs[0]), xs[1..], ys);
    } else {
      assert xs + ys == ys;
    }
  }

  lemma {:induction false} CanonicalAllConcat(xs: seq<string>, ys: seq<string>, ipFamily: string -> IPFamily)
    ensures CanonicalAll(xs + ys, ipFamily) == CanonicalAll(xs, ipFamily) + CanonicalAll(ys, ipFamily)
    decreases |xs|
  {
    if xs != [] {
      assert (xs + ys)[1..] == xs[1..] + ys;
      CanonicalAllConcat(xs[1..], ys, ipFamily);
    } else {
      assert xs + ys == ys;
    }
  }

  /** The suffix never adds white space at either end of a token. */
  lemma CanonicalArgUntrimmed(tok: string, ipFamily: string -> IPFamily)
    requires |tok| > 0 && !IsSpace(tok[0]) && !IsSpace(tok[|tok| - 1])
    ensures CanonicalArg(tok, ipFamily) == WithPrefixLength(tok, ipFamily)
  {
    var s := tok + AddressSuffix(ipFamily(tok));
    assert s[0] == tok[0];
    assert !IsSpace(s[|s| - 1]);
  }

  /** A plain token is never mistaken for the head of a `--to-destination=`
      token when more text follows it. */
  lemma PlainTokenNotRewritten(tok: string, tail: string)
    requires PlainToken(tok) && !HasPrefix(tok, ToDestinationAssign)
    requires tail == [] || tail[0] == ' '
    ensures !HasPrefix(tok + tail, ToDestinationAssign)
  {
    var s := tok + tail;
    if |tok| >= |ToDestinationAssign| {
      assert s[..|ToDestinationAssign|] == tok[..|ToDestinationAssign|];
    } else if tail != [] {
      assert s[|tok|] == ' ';
      assert forall i :: 0 <= i < |ToDestinationAssign| ==> ToDestinationAssign[i] != ' ';
    }
  }

  /** A plain token ends at the space after it, or at the end. */
  lemma PlainTokenEnd(tok: string, tail: string)
    requires PlainToken(tok)
    requires tail == [] || tail[0] == ' '
    ensures TokenEnd(tok + tail) == |tok|
  {
    assert forall k :: 0 <= k < |tok| ==> tok[k] != ' ' by {
      forall k | 0 <= k < |tok| ensures tok[k] != ' ' {
        assert !IsSpace(tok[k]);
      }
    }
    IndexAtEnd(tok, ' ', tail);
    assert (tok + tail)[0] == tok[0];
  }

  /** A quoted token ends just past its closing quote. */
  lemma QuotedTokenEnd(tok: string, tail: string)
    requires QuotedToken(tok)
    ensures !HasPrefix(tok + tail, ToDestinationAssign)
    ensures TokenEnd(tok + tail) == |tok|
  {
    var s := tok + tail;
    var inner := tok[1..|tok| - 1];
    assert s[0] == '"';
    assert s[1..] == inner + ['"'] + tail;
    IndexAfter(inner, '"', tail);
  }

  /** The flag of a `--to-destination=` token is itself a plain token. */
  lemma ToDestinationFlagPlain()
    ensures PlainToken(ToDestinationFlag) && !HasPrefix(ToDestinationFlag, ToDestinationAssign)
    ensures !IsSpace(ToDestinationFlag[0]) && !IsSpace(ToDestinationFlag[|ToDestinationFlag| - 1])
  {
  }

  /** A `--to-destination=X` token is rewritten to the flag, a space, and X. */
  lemma ToDestinationRewrite(x: string, tail: string)
    ensures Rewritten(ToDestinationAssign + x + tail) == ToDestinationFlag + " " + (x + tail)
  {
    var s := ToDestinationAssign + x + tail;
    assert HasPrefix(s, ToDestinationAssign);
    assert s == ToDestinationFlag + ['='] + (x + tail);
    IndexAfter(ToDestinationFlag, '=', x + tail);
  }

  /** One pass of the loop over a head token `a` that is followed by a space. */
  lemma StepThenRest(rem: string, a: string, rest: string, acc: string, ipFamily: string -> IPFamily)
    requires Rewritten(rem) == a + " " + rest
    requires |a| > 0 && !IsSpace(a[0]) && !IsSpace(a[|a| - 1])
    requires TokenEnd(a + " " + rest) == |a|
    ensures NormalizeFrom(rem, acc, ipFamily) == NormalizeFrom(rest, Appended(acc, WithPrefixLength(a, ipFamily)), ipFamily)
  {
    var r := a + " " + rest;
    assert r[..|a|] == a;
    assert r[|a| + 1..] == rest;
    CanonicalArgUntrimmed(a, ipFamily);
  }

  /** The last pass of the loop, over a head token `a` that ends the input. */
  lemma StepLast(rem: string, a: string, acc: string, ipFamily: string -> IPFamily)
    requires Rewritten(rem) == a
    requires |a| > 0 && !IsSpace(a[0]) && !IsSpace(a[|a| - 1])
    requires TokenEnd(a) == |a|
    ensures NormalizeFrom(rem, acc, ipFamily) == Ok(Appended(acc, WithPrefixLength(a, ipFamily)))
  {
    assert a[..|a|] == a;
    CanonicalArgUntrimmed(a, ipFamily);
  }

  /** One well-formed token followed by a space: the loop emits its canonical
      tokens and carries on with what follows. */
  lemma {:induction false} TokenThenRest(tok: string, rest: string, acc: string, ipFamily: string -> IPFamily)
    requires WellFormedToken(tok)
    ensures NormalizeFrom(tok + " " + rest, acc, ipFamily)
         == NormalizeFrom(rest, AppendedAll(acc, CanonicalTokens(tok, ipFamily)), ipFamily)
    decreases |tok|, 1
  {
    if QuotedToken(tok) {
      SingleThenRest(tok, rest, acc, ipFamily);
    } else if HasPrefix(tok, ToDestinationAssign) {
      ToDestinationThenRest(tok, rest, acc, ipFamily);
    } else {
      SingleThenRest(tok, rest, acc, ipFamily);
    }
  }

  /** A quoted token, or a plain one that is not a `--to-destination=`
      token, is emitted as one canonical token. */
  lemma SingleThenRest(tok: string, rest: string, acc: string, ipFamily: string -> IPFamily)
    requires QuotedToken(tok) || (PlainToken(tok) && !HasPrefix(tok, ToDestinationAssign))
    ensures NormalizeFrom(tok + " " + rest, acc, ipFamily)
         == NormalizeFrom(rest, AppendedAll(acc, CanonicalTokens(tok, ipFamily)), ipFamily)
  {
    var tail := " " + rest;
    assert tok + " " + rest == tok + tail;
    if QuotedToken(tok) {
      QuotedTokenEnd(tok, tail);
    } else {
      PlainTokenNotRewritten(tok, tail);
      PlainTokenEnd(tok, tail);
    }
    assert !HasPrefix(tok, ToDestinationAssign);
    assert CanonicalTokens(tok, ipFamily) == [WithPrefixLength(tok, ipFamily)];
    StepThenRest(tok + tail, tok, rest, acc, ipFamily);
  }

  /** The `--to-destination=X` case of TokenThenRest: the flag, then X. */
  lemma {:induction false} ToDestinationThenRest(tok: string, rest: string, acc: string, ipFamily: string -> IPFamily)
    requires PlainToken(tok) && HasPrefix(tok, ToDestinationAssign)
    ensures NormalizeFrom(tok + " " + rest, acc, ipFamily)
         == NormalizeFrom(rest, AppendedAll(acc, CanonicalTokens(tok, ipFamily)), ipFamily)
    decreases |tok|, 0
  {
    var x := tok[|ToDestinationAssign|..];
    var flag := WithPrefixLength(ToDestinationFlag, ipFamily);
    assert PlainToken(x);
    assert CanonicalTokens(tok, ipFamily) == [flag] + CanonicalTokens(x, ipFamily);
    assert tok + " " + rest == ToDestinationAssign + x + (" " + rest);
    ToDestinationRewrite(x, " " + rest);
    assert x + (" " + rest) == x + " " + rest;
    ToDestinationFlagPlain();
    PlainTokenEnd(ToDestinationFlag, " " + (x + " " + rest));
    assert ToDestinationFlag + " " + (x + " " + rest) == ToDestinationFlag + (" " + (x + " " + rest));
    StepThenRest(tok + " " + rest, ToDestinationFlag, x + " " + rest, acc, ipFamily);
    TokenThenRest(x, rest, Appended(acc, flag), ipFamily);
    AppendedAllConcat(acc, [flag], CanonicalTokens(x, ipFamily));
  }

  /** A well-formed token that ends the rule: the loop emits its canonical
      tokens and stops. */
  lemma {:induction false} LastToken(tok: string, acc: string, ipFamily: string -> IPFamily)
    requires WellFormedToken(tok)
    ensures NormalizeFrom(tok, acc, ipFamily) == Ok(AppendedAll(acc, CanonicalTokens(tok, ipFamily)))
    decreases |tok|
  {
    var n := |ToDestinationAssign|;
    if QuotedToken(tok) {
      QuotedTokenEnd(tok, "");
      assert tok + "" == tok;
      StepLast(tok, tok, acc, ipFamily);
    } else if HasPrefix(tok, ToDestinationAssign) {
      var x := tok[n..];
      assert PlainToken(x);
      assert tok == ToDestinationAssign + x + "";
      ToDestinationRewrite(x, "");
      assert x + "" == x;
      ToDestinationFlagPlain();
      PlainTokenEnd(ToDestinationFlag, " " + x);
      assert ToDestinationFlag + " " + x == ToDestinationFlag + (" " + x);
      StepThenRest(tok, ToDestinationFlag, x, acc, ipFamily);
      var out := Appended(acc, WithPrefixLength(ToDestinationFlag, ipFamily));
      LastToken(x, out, ipFamily);
      AppendedAllConcat(acc, [WithPrefixLength(ToDestinationFlag, ipFamily)], CanonicalTokens(x, ipFamily));
    } else {
      PlainTokenNotRewritten(tok, "");
      PlainTokenEnd(tok, "");
      assert tok + "" == tok;
      StepLast(tok, tok, acc, ipFamily);
    }
  }

  /** Well-formed tokens followed by a space: the loop emits all their
      canonical tokens, in order, and carries on with what follows. */
  lemma {:induction false} TokensThenRest(toks: seq<string>, rest: string, acc: string, ipFamily: string -> IPFamily)
    requires |toks| > 0 && AllWellFormed(toks)
    ensures NormalizeFrom(Join(toks, " ") + " " + rest, acc, ipFamily)
         == NormalizeFrom(rest, AppendedAll(acc, CanonicalAll(toks, ipFamily)), ipFamily)
    decreases |toks|
  {
    var head := toks[0];
    assert WellFormedToken(head);
    if |toks| == 1 {
      assert Join(toks, " ") == head;
      assert CanonicalAll(toks, ipFamily) == CanonicalTokens(head, ipFamily) + CanonicalAll([], ipFamily);
      assert CanonicalAll(toks, ipFamily) == CanonicalTokens(head, ipFamily);
      TokenThenRest(head, rest, acc, ipFamily);
    } else {
      var tail := toks[1..];
      assert AllWellFormed(tail) by {
        forall k | 0 <= k < |tail| ensures WellFormedToken(tail[k]) {
          assert tail[k] == toks[k + 1];
        }
      }
      var after := Join(tail, " ") + " " + rest;
      assert Join(toks, " ") + " " + rest == head + " " + after;
      TokenThenRest(head, after, acc, ipFamily);
      var acc' := AppendedAll(acc, CanonicalTokens(head, ipFamily));
      TokensThenRest(tail, rest, acc', ipFamily);
      assert CanonicalAll(toks, ipFamily) == CanonicalTokens(head, ipFamily) + CanonicalAll(tail, ipFamily);
      AppendedAllConcat(acc, CanonicalTokens(head, ipFamily), CanonicalAll(tail, ipFamily));
    }
  }

  /** The loop over a whole rule of well-formed tokens. */
  lemma {:induction false} AllTokens(toks: seq<string>, acc: string, ipFamily: string -> IPFamily)
    requires |toks| > 0 && AllWellFormed(toks)
    ensures NormalizeFrom(Join(toks, " "), acc, ipFamily) == Ok(AppendedAll(acc, CanonicalAll(toks, ipFamily)))
  {
    var last := toks[|toks| - 1];
    assert WellFormedToken(last);
    if |toks| == 1 {
      assert Join(toks, " ") == last;
      assert CanonicalAll(toks, ipFamily) == CanonicalTokens(last, ipFamily) + CanonicalAll([], ipFamily);
      assert CanonicalAll(toks, ipFamily) == CanonicalTokens(last, ipFamily);
      LastToken(last, acc, ipFamily);
    } else {
      var init := toks[..|toks| - 1];
      assert toks == init + [last];
      assert AllWellFormed(init) by {
        forall k | 0 <= k < |init| ensures WellFormedToken(init[k]) {
          assert init[k] == toks[k];
        }
      }
      JoinSnoc(init, last, " ");
      TokensThenRest(init, last, acc, ipFamily);
      var acc' := AppendedAll(acc, CanonicalAll(init, ipFamily));
      LastToken(last, acc', ipFamily);
      CanonicalAllConcat(init, [last], ipFamily);
      assert CanonicalAll([last], ipFamily) == CanonicalTokens(last, ipFamily) + CanonicalAll([], ipFamily);
      assert CanonicalAll([last], ipFamily) == CanonicalTokens(last, ipFamily);
      AppendedAllConcat(acc, CanonicalAll(init, ipFamily), CanonicalTokens(last, ipFamily));
    }
  }

  lemma {:induction false} JoinSnoc(init: seq<string>, last: string, sep: string)
    requires |init| > 0
    ensures Join(init + [last], sep) == Join(init, sep) + sep + last
    decreases |init|
  {
    if |init| == 1 {
      assert init + [last] == [init[0], last];
    } else {
      assert (init + [last])[1..] == init[1..] + [last];
      JoinSnoc(init[1..], last, sep);
    }
  }

  /** Emitting non-empty tokens into an empty output joins them with single spaces. */
  lemma {:induction false} AppendedAllJoins(acc: string, xs: seq<string>)
    requires forall k :: 0 <= k < |xs| ==> xs[k] != ""
    ensures acc != "" && xs != [] ==> AppendedAll(acc, xs) == acc + " " + Join(xs, " ")
    ensures acc == "" ==> AppendedAll(acc, xs) == Join(xs, " ")
    decreases |xs|
  {
    if xs != [] {
      AppendedAllJoins(Appended(acc, xs[0]), xs[1..]);
      if |xs| > 1 {
        assert Join(xs, " ") == xs[0] + " " + Join(xs[1..], " ");
      }
    }
  }

  lemma {:induction false} JoinEnds(toks: seq<string>)
    requires |toks| > 0 && forall k :: 0 <= k < |toks| ==> toks[k] != ""
    ensures var j := Join(toks, " ");
      |j| > 0 && j[0] == toks[0][0] && j[|j| - 1] == toks[|toks| - 1][|toks[|toks| - 1]| - 1]
    decreases |toks|
  {
    if |toks| > 1 {
      JoinEnds(toks[1..]);
    }
  }

  lemma {:induction false} CanonicalTokensNonEmpty(tok: string, ipFamily: string -> IPFamily)
    requires |tok| > 0
    ensures forall k :: 0 <= k < |CanonicalTokens(tok, ipFamily)| ==> CanonicalTokens(tok, ipFamily)[k] != ""
    decreases |tok|
  {
    if |tok| > |ToDestinationAssign| && HasPrefix(tok, ToDestinationAssign) {
      CanonicalTokensNonEmpty(tok[|ToDestinationAssign|..], ipFamily);
    }
  }

  lemma {:induction false} CanonicalAllNonEmpty(toks: seq<string>, ipFamily: string -> IPFamily)
    requires AllWellFormed(toks)
    ensures forall k :: 0 <= k < |CanonicalAll(toks, ipFamily)| ==> CanonicalAll(toks, ipFamily)[k] != ""
    ensures |toks| > 0 ==> |CanonicalAll(toks, ipFamily)| > 0
    decreases |toks|
  {
    if toks != [] {
      assert WellFormedToken(toks[0]);
      CanonicalTokensNonEmpty(toks[0], ipFamily);
      assert AllWellFormed(toks[1..]) by {
        forall k | 0 <= k < |toks[1..]| ensures WellFormedToken(toks[1..][k]) {
          assert toks[1..][k] == toks[k + 1];
        }
      }
      CanonicalAllNonEmpty(toks[1..], ipFamily);
    }
  }

  /** A rule written as well-formed tokens separated by single spaces
      normalises to their canonical tokens separated by single spaces: bare
      IPv4 and IPv6 addresses gain `/32` and `/128`, a `--to-destination=X`
      token becomes two, a quoted token is kept whole with both quotes. */
  lemma NormalizeWellFormed(toks: seq<string>, ipFamily: string -> IPFamily)
    requires |toks| > 0 && AllWellFormed(toks)
    ensures Normalize(Join(toks, " "), ipFamily) == Ok(Join(CanonicalAll(toks, ipFamily), " "))
  {
    JoinUntrimmed(toks);
    AllTokens(toks, "", ipFamily);
    CanonicalAllNonEmpty(toks, ipFamily);
    AppendedAllJoins("", CanonicalAll(toks, ipFamily));
  }

  /** Well-formed tokens joined by single spaces have no white space to trim. */
  lemma JoinUntrimmed(toks: seq<string>)
    requires |toks| > 0 && AllWellFormed(toks)
    ensures TrimSpace(Join(toks, " ")) == Join(toks, " ")
  {
    forall k | 0 <= k < |toks| ensures toks[k] != "" {
      WellFormedEnds(toks[k]);
    }
    JoinEnds(toks);
    WellFormedEnds(toks[0]);
    WellFormedEnds(toks[|toks| - 1]);
  }

  lemma WellFormedEnds(tok: string)
    requires WellFormedToken(tok)
    ensures tok != "" && !IsSpace(tok[0]) && !IsSpace(tok[|tok| - 1])
  {
  }

  /** An opening quote that is never closed makes the rule invalid, whatever
      well-formed tokens come before it. */
  lemma UnterminatedQuote(toks: seq<string>, text: string, ipFamily: string -> IPFamily)
    requires AllWellFormed(toks)
    requires '"' !in text && (text == "" || !IsSpace(text[|text| - 1]))
    ensures Normalize(Join(toks + ["\"" + text], " "), ipFamily) == Err(MismatchedQuotes)
  {
    var q := "\"" + text;
    assert q[0] == '"' && q[|q| - 1] == (if text == "" then '"' else text[|text| - 1]);
    if toks == [] {
      assert Join(toks + [q], " ") == q by {
        assert toks + [q] == [q];
      }
      assert TrimSpace(q) == q;
      OpenQuoteFails(text, "", ipFamily);
    } else {
      var all := Join(toks, " ") + " " + q;
      assert Join(toks + [q], " ") == all by {
        JoinSnoc(toks, q, " ");
      }
      assert TrimSpace(all) == all by {
        forall k | 0 <= k < |toks| ensures toks[k] != "" {
          assert WellFormedToken(toks[k]);
        }
        JoinEnds(toks);
        assert WellFormedToken(toks[0]);
        assert all[0] == toks[0][0];
        assert all[|all| - 1] == q[|q| - 1];
      }
      TokensThenRest(toks, q, "", ipFamily);
      OpenQuoteFails(text, AppendedAll("", CanonicalAll(toks, ipFamily)), ipFamily);
    }
  }

  /** A quote with no closing quote after it fails, whatever came before. */
  lemma OpenQuoteFails(text: string, acc: string, ipFamily: string -> IPFamily)
    requires '"' !in text
    ensures NormalizeFrom("\"" + text, acc, ipFamily) == Err(MismatchedQuotes)
  {
    var q := "\"" + text;
    assert q[1..] == text;
    assert !HasPrefix(q, ToDestinationAssign) by {
      if |q| >= |ToDestinationAssign| {
        assert q[..|ToDestinationAssign|][0] == '"' != ToDestinationAssign[0];
      }
    }
    assert TokenEnd(q) == -1;
  }


  /** The same rule written with a bare address or with the address and its
      host prefix length normalises to the same text, so the store keeps one
      copy. This assumes what the address classifier does: an address
      followed by its prefix length is no longer an address. */
  lemma HostPrefixEquivalent(before: seq<string>, after: seq<string>, addr: string, ipFamily: string -> IPFamily)
    requires AllWellFormed(before) && AllWellFormed(after)
    requires PlainToken(addr) && !HasPrefix(addr, ToDestinationAssign)
    requires ipFamily(addr) != NotIP
    requires ipFamily(WithPrefixLength(addr, ipFamily)) == NotIP
    ensures Normalize(Join(before + [addr] + after, " "), ipFamily)
         == Normalize(Join(before + [WithPrefixLength(addr, ipFamily)] + after, " "), ipFamily)
  {
    var full := WithPrefixLength(addr, ipFamily);
    PrefixedAddressPlain(addr, ipFamily);
    WellFormedInsert(before, addr, after);
    WellFormedInsert(before, full, after);
    NormalizeWellFormed(before + [addr] + after, ipFamily);
    NormalizeWellFormed(before + [full] + after, ipFamily);
    CanonicalAllInsert(before, addr, after, ipFamily);
    CanonicalAllInsert(before, full, after, ipFamily);
    assert CanonicalTokens(addr, ipFamily) == [full];
    assert CanonicalTokens(full, ipFamily) == [full + ""];
    assert full + "" == full;
  }

  /** An address with its prefix length appended is still a plain token. */
  lemma PrefixedAddressPlain(addr: string, ipFamily: string -> IPFamily)
    requires PlainToken(addr) && !HasPrefix(addr, ToDestinationAssign)
    requires ipFamily(addr) != NotIP
    ensures PlainToken(WithPrefixLength(addr, ipFamily))
    ensures !HasPrefix(WithPrefixLength(addr, ipFamily), ToDestinationAssign)
  {
    var full := WithPrefixLength(addr, ipFamily);
    var sfx := AddressSuffix(ipFamily(addr));
    assert full == addr + sfx;
    assert sfx == "/32" || sfx == "/128";
    assert forall k :: 0 <= k < |sfx| ==> !IsSpace(sfx[k]) && sfx[k] != '"';
    if |addr| >= |ToDestinationAssign| {
      assert full[..|ToDestinationAssign|] == addr[..|ToDestinationAssign|];
    } else {
      assert full[|addr|] == '/';
      assert forall i :: 0 <= i < |ToDestinationAssign| ==> ToDestinationAssign[i] != '/';
    }
    forall k | 0 <= k < |full| ensures !IsSpace(full[k]) && full[k] != '"' {
      if k < |addr| {
        assert full[k] == addr[k];
      } else {
        assert full[k] == sfx[k - |addr|];
      }
    }
  }

  /** Normalising a rule twice gives what normalising it once gave, for a
      rule of well-formed tokens. This assumes what the address classifier
      does: a quoted token is no address, and neither is any token of the
      canonical form (an address that has gained its prefix length, the
      `--to-destination` flag, a port). */
  lemma NormalizeIdempotent(toks: seq<string>, ipFamily: string -> IPFamily)
    requires |toks| > 0 && AllWellFormed(toks)
    requires forall k :: 0 <= k < |toks| && QuotedToken(toks[k]) ==> ipFamily(toks[k]) == NotIP
    requires forall k :: 0 <= k < |CanonicalAll(toks, ipFamily)| ==> ipFamily(CanonicalAll(toks, ipFamily)[k]) == NotIP
    ensures Normalize(Join(toks, " "), ipFamily).Ok?
    ensures var once := Normalize(Join(toks, " "), ipFamily).value;
      Normalize(once, ipFamily) == Ok(once)
  {
    var canon := CanonicalAll(toks, ipFamily);
    NormalizeWellFormed(toks, ipFamily);
    CanonicalAllStable(toks, ipFamily);
    CanonicalAllNonEmpty(toks, ipFamily);
    NormalizeWellFormed(canon, ipFamily);
  }

  /** A word with no white space and no quote that is not an option. */
  predicate BareWord(w: string) {
    |w| > 0 && w[0] != '-' && forall k :: 0 <= k < |w| ==> !IsSpace(w[k]) && w[k] != '"'
  }

  /** Without well-formed tokens normalising twice can differ from
      normalising once. In `x \t"a b"c d` the first pass splits at spaces
      and trims the tab off the token `\t"a`; only the second pass reads
      `"a b"` as a quoted token, skips the `c` after its closing quote and
      emits an empty token for the space that follows. */
  lemma NormalizeNotIdempotent(x: string, a: string, b: string, c: char, d: string, ipFamily: string -> IPFamily)
    requires forall t :: ipFamily(t) == NotIP
    requires BareWord(x) && BareWord(a) && BareWord(b) && BareWord(d)
    requires !IsSpace(c) && c != '"'
    ensures Normalize(x + " \t\"" + a + " " + b + "\"" + [c] + " " + d, ipFamily)
         == Ok(x + " \"" + a + " " + b + "\"" + [c] + " " + d)
    ensures Normalize(x + " \"" + a + " " + b + "\"" + [c] + " " + d, ipFamily)
         == Ok(x + " \"" + a + " " + b + "\"  " + d)
  {
    FirstPass(x, a, b, c, d, ipFamily);
    SecondPass(x, a, b, c, d, ipFamily);
  }

  lemma FirstPass(x: string, a: string, b: string, c: char, d: string, ipFamily: string -> IPFamily)
    requires forall t :: ipFamily(t) == NotIP
    requires BareWord(x) && BareWord(a) && BareWord(b) && BareWord(d)
    requires !IsSpace(c) && c != '"'
    ensures Normalize(x + " \t\"" + a + " " + b + "\"" + [c] + " " + d, ipFamily)
         == Ok(x + " \"" + a + " " + b + "\"" + [c] + " " + d)
  {
    var tabbed := "\t\"" + a;
    var closed := b + "\"" + [c];
    var rule := x + " " + (tabbed + " " + (closed + " " + d));
    var out := x + " " + ("\"" + a) + " " + closed + " " + d;
    FirstPassShape(x, a, b, c, d);
    RuleUntrimmed(x, tabbed + " " + (closed + " " + d), d);
    HeadWordStep(x, tabbed + " " + (closed + " " + d), ipFamily);
    TabbedWordStep(a, closed + " " + d, x, ipFamily);
    ClosedWordStep(b, c, d, x + " " + ("\"" + a), ipFamily);
    LastWordStep(d, x + " " + ("\"" + a) + " " + closed, ipFamily);
  }

  lemma FirstPassShape(x: string, a: string, b: string, c: char, d: string)
    ensures x + " \t\"" + a + " " + b + "\"" + [c] + " " + d
         == x + " " + ("\t\"" + a + " " + (b + "\"" + [c] + " " + d))
    ensures x + " " + ("\"" + a) + " " + (b + "\"" + [c]) + " " + d
         == x + " \"" + a + " " + b + "\"" + [c] + " " + d
  {
  }

  lemma SecondPass(x: string, a: string, b: string, c: char, d: string, ipFamily: string -> IPFamily)
    requires forall t :: ipFamily(t) == NotIP
    requires BareWord(x) && BareWord(a) && BareWord(b) && BareWord(d)
    requires !IsSpace(c) && c != '"'
    ensures Normalize(x + " \"" + a + " " + b + "\"" + [c] + " " + d, ipFamily)
         == Ok(x + " \"" + a + " " + b + "\"  " + d)
  {
    var quoted := "\"" + a + " " + b + "\"";
    SecondPassShape(x, a, b, c, d);
    RuleUntrimmed(x, quoted + [c] + ("" + " " + d), d);
    HeadWordStep(x, quoted + [c] + ("" + " " + d), ipFamily);
    QuotedWordsStep(a, b, c, "" + " " + d, x, ipFamily);
    EmptyTokenStep(d, x + " " + quoted, ipFamily);
    LastWordStep(d, x + " " + quoted + " ", ipFamily);
  }

  lemma SecondPassShape(x: string, a: string, b: string, c: char, d: string)
    ensures x + " \"" + a + " " + b + "\"" + [c] + " " + d
         == x + " " + (("\"" + a + " " + b + "\"") + [c] + ("" + " " + d))
    ensures x + " " + ("\"" + a + " " + b + "\"") + " " + " " + d == x + " \"" + a + " " + b + "\"  " + d
  {
  }

  /** A rule that starts with the first word and ends with the last has
      nothing to trim. */
  lemma RuleUntrimmed(x: string, rest: string, d: string)
    requires BareWord(x) && BareWord(d) && HasSuffix(rest, d)
    ensures TrimSpace(x + " " + rest) == x + " " + rest
  {
    var r := x + " " + rest;
    assert r[0] == x[0];
    assert r[|r| - 1] == rest[|rest| - 1] == d[|d| - 1];
  }

  lemma HeadWordStep(x: string, rest: string, ipFamily: string -> IPFamily)
    requires BareWord(x) && ipFamily(x) == NotIP
    ensures NormalizeFrom(x + " " + rest, "", ipFamily) == NormalizeFrom(rest, x, ipFamily)
  {
    SpaceEndedToken(x, rest, "", ipFamily);
    KeptWord(x, ipFamily);
  }

  lemma TabbedWordStep(a: string, rest: string, acc: string, ipFamily: string -> IPFamily)
    requires BareWord(a) && acc != "" && forall t :: ipFamily(t) == NotIP
    ensures NormalizeFrom("\t\"" + a + " " + rest, acc, ipFamily) == NormalizeFrom(rest, acc + " " + ("\"" + a), ipFamily)
  {
    var w := "\t\"" + a;
    assert forall k :: 0 <= k < |w| ==> w[k] != ' ' by {
      assert forall k :: 2 <= k < |w| ==> w[k] == a[k - 2];
    }
    SpaceEndedToken(w, rest, acc, ipFamily);
    TabTrimmed(a, ipFamily);
  }

  lemma ClosedWordStep(b: string, c: char, d: string, acc: string, ipFamily: string -> IPFamily)
    requires BareWord(b) && !IsSpace(c) && c != '"' && acc != "" && forall t :: ipFamily(t) == NotIP
    ensures NormalizeFrom(b + "\"" + [c] + " " + d, acc, ipFamily) == NormalizeFrom(d, acc + " " + (b + "\"" + [c]), ipFamily)
  {
    var w := b + "\"" + [c];
    assert forall k :: 0 <= k < |w| ==> w[k] != ' ' by {
      assert forall k :: 0 <= k < |b| ==> w[k] == b[k];
      assert w[|b|] == '"' && w[|b| + 1] == c;
    }
    SpaceEndedToken(w, d, acc, ipFamily);
    KeptWord(w, ipFamily);
  }

  lemma QuotedWordsStep(a: string, b: string, c: char, rest: string, acc: string, ipFamily: string -> IPFamily)
    requires BareWord(a) && BareWord(b) && acc != "" && forall t :: ipFamily(t) == NotIP
    ensures var q := "\"" + a + " " + b + "\"";
      NormalizeFrom(q + [c] + rest, acc, ipFamily) == NormalizeFrom(rest, acc + " " + q, ipFamily)
  {
    var q := "\"" + a + " " + b + "\"";
    assert QuotedToken(q) by {
      assert forall k :: 1 <= k <= |a| ==> q[k] == a[k - 1];
      assert q[|a| + 1] == ' ';
      assert forall k :: |a| + 2 <= k < |q| - 1 ==> q[k] == b[k - |a| - 2];
    }
    QuoteEndedToken(q, c, rest, acc, ipFamily);
    KeptWord(q, ipFamily);
  }

  lemma EmptyTokenStep(d: string, acc: string, ipFamily: string -> IPFamily)
    requires acc != "" && ipFamily("") == NotIP
    ensures NormalizeFrom("" + " " + d, acc, ipFamily) == NormalizeFrom(d, acc + " ", ipFamily)
  {
    SpaceEndedToken("", d, acc, ipFamily);
    var e := "" + AddressSuffix(ipFamily(""));
    assert e == [];
    assert TrimSpace(e) == [];
    assert acc + " " + "" == acc + " ";
  }

  lemma LastWordStep(d: string, acc: string, ipFamily: string -> IPFamily)
    requires BareWord(d) && acc != "" && ipFamily(d) == NotIP
    ensures NormalizeFrom(d, acc, ipFamily) == Ok(acc + " " + d)
  {
    LastPlainToken(d, acc, ipFamily);
    KeptWord(d, ipFamily);
  }

  /** A token with nothing to trim and no address is emitted as written. */
  lemma KeptWord(w: string, ipFamily: string -> IPFamily)
    requires |w| > 0 && !IsSpace(w[0]) && !IsSpace(w[|w| - 1])
    requires ipFamily(w) == NotIP
    ensures CanonicalArg(w, ipFamily) == w
  {
    CanonicalArgUntrimmed(w, ipFamily);
    assert w + "" == w;
  }

  /** A tab before a quoted word is trimmed off the emitted token. */
  lemma TabTrimmed(a: string, ipFamily: string -> IPFamily)
    requires BareWord(a) && ipFamily("\t\"" + a) == NotIP
    ensures CanonicalArg("\t\"" + a, ipFamily) == "\"" + a
  {
    var w := "\t\"" + a;
    assert w + AddressSuffix(NotIP) == w;
    assert w == ['\t'] + ("\"" + a);
    LeadingSpaceTrimmed('\t', "\"" + a);
  }

  lemma LeadingSpaceTrimmed(c: char, q: string)
    requires IsSpace(c) && |q| > 0 && !IsSpace(q[0]) && !IsSpace(q[|q| - 1])
    ensures TrimSpace([c] + q) == q
  {
    var w := [c] + q;
    assert w[1..] == q;
    assert TrimLeftSpace(w) == TrimLeftSpace(q) == q;
  }

  /** One pass of the loop over a head token `a` that holds no space and
      does not open with a quote, followed by a space. */
  lemma SpaceEndedToken(a: string, rest: string, acc: string, ipFamily: string -> IPFamily)
    requires |a| > 0 ==> a[0] != '"' && a[0] != '-'
    requires forall k :: 0 <= k < |a| ==> a[k] != ' '
    ensures NormalizeFrom(a + " " + rest, acc, ipFamily) == NormalizeFrom(rest, Appended(acc, CanonicalArg(a, ipFamily)), ipFamily)
  {
    var r := a + " " + rest;
    assert r == a + [' '] + rest;
    IndexAfter(a, ' ', rest);
    assert r[0] != '-' && r[0] != '"';
    assert Rewritten(r) == r;
    assert r[..|a|] == a && r[|a| + 1..] == rest;
  }

  /** One pass of the loop over a quoted head token, followed by any one
      character. */
  lemma QuoteEndedToken(tok: string, c: char, rest: string, acc: string, ipFamily: string -> IPFamily)
    requires QuotedToken(tok)
    ensures NormalizeFrom(tok + [c] + rest, acc, ipFamily) == NormalizeFrom(rest, Appended(acc, CanonicalArg(tok, ipFamily)), ipFamily)
  {
    var r := tok + [c] + rest;
    QuotedTokenEnd(tok, [c] + rest);
    assert r == tok + ([c] + rest);
    assert r[..|tok|] == tok && r[|tok| + 1..] == rest;
  }

  /** The last pass of the loop, over a plain token that ends the input. */
  lemma LastPlainToken(a: string, acc: string, ipFamily: string -> IPFamily)
    requires |a| > 0 && a[0] != '"' && a[0] != '-'
    requires forall k :: 0 <= k < |a| ==> a[k] != ' '
    ensures NormalizeFrom(a, acc, ipFamily) == Ok(Appended(acc, CanonicalArg(a, ipFamily)))
  {
    assert Rewritten(a) == a;
    assert a[..|a|] == a;
  }

  /** Under the same assumption, the canonical tokens are well-formed and
      are their own canonical form. */
  lemma {:induction false} CanonicalAllStable(toks: seq<string>, ipFamily: string -> IPFamily)
    requires AllWellFormed(toks)
    requires forall k :: 0 <= k < |toks| && QuotedToken(toks[k]) ==> ipFamily(toks[k]) == NotIP
    requires forall k :: 0 <= k < |CanonicalAll(toks, ipFamily)| ==> ipFamily(CanonicalAll(toks, ipFamily)[k]) == NotIP
    ensures AllWellFormed(CanonicalAll(toks, ipFamily))
    ensures CanonicalAll(CanonicalAll(toks, ipFamily), ipFamily) == CanonicalAll(toks, ipFamily)
    decreases |toks|
  {
    if toks != [] {
      var head := CanonicalTokens(toks[0], ipFamily);
      var tail := CanonicalAll(toks[1..], ipFamily);
      assert CanonicalAll(toks, ipFamily) == head + tail;
      assert WellFormedToken(toks[0]);
      forall k | 0 <= k < |head| ensures ipFamily(head[k]) == NotIP {
        assert head[k] == (head + tail)[k];
      }
      CanonicalTokensStable(toks[0], ipFamily);
      forall k | 0 <= k < |tail| ensures ipFamily(tail[k]) == NotIP {
        assert tail[k] == (head + tail)[|head| + k];
      }
      assert AllWellFormed(toks[1..]) by {
        forall k | 0 <= k < |toks[1..]| ensures WellFormedToken(toks[1..][k]) {
          assert toks[1..][k] == toks[k + 1];
        }
      }
      CanonicalAllStable(toks[1..], ipFamily);
      CanonicalAllConcat(head, tail, ipFamily);
      WellFormedConcat(head, tail);
    }
  }

  lemma WellFormedConcat(xs: seq<string>, ys: seq<string>)
    requires AllWellFormed(xs) && AllWellFormed(ys)
    ensures AllWellFormed(xs + ys)
  {
    forall k | 0 <= k < |xs + ys| ensures WellFormedToken((xs + ys)[k]) {
      if k >= |xs| {
        assert (xs + ys)[k] == ys[k - |xs|];
      }
    }
  }

  /** The canonical tokens of one well-formed token, under the same
      assumption, are well-formed and their own canonical form. */
  lemma {:induction false} CanonicalTokensStable(tok: string, ipFamily: string -> IPFamily)
    requires WellFormedToken(tok)
    requires QuotedToken(tok) ==> ipFamily(tok) == NotIP
    requires forall k :: 0 <= k < |CanonicalTokens(tok, ipFamily)| ==> ipFamily(CanonicalTokens(tok, ipFamily)[k]) == NotIP
    ensures AllWellFormed(CanonicalTokens(tok, ipFamily))
    ensures CanonicalAll(CanonicalTokens(tok, ipFamily), ipFamily) == CanonicalTokens(tok, ipFamily)
    decreases |tok|
  {
    var canon := CanonicalTokens(tok, ipFamily);
    if QuotedToken(tok) {
      assert !HasPrefix(tok, ToDestinationAssign) by {
        if |tok| >= |ToDestinationAssign| {
          assert tok[..|ToDestinationAssign|][0] == '"';
        }
      }
      assert canon == [tok + ""];
      assert tok + "" == tok;
      KeptToken(tok, ipFamily);
    } else if |tok| > |ToDestinationAssign| && HasPrefix(tok, ToDestinationAssign) {
      var flag := WithPrefixLength(ToDestinationFlag, ipFamily);
      var value := tok[|ToDestinationAssign|..];
      var rest := CanonicalTokens(value, ipFamily);
      assert canon == [flag] + rest;
      assert ipFamily(flag) == NotIP by {
        assert canon[0] == flag;
      }
      SuffixedPlain(ToDestinationFlag, ipFamily);
      KeptToken(flag, ipFamily);
      assert PlainToken(value);
      assert !QuotedToken(value) by {
        assert value[0] == tok[|ToDestinationAssign|];
      }
      forall k | 0 <= k < |rest| ensures ipFamily(rest[k]) == NotIP {
        assert rest[k] == canon[k + 1];
      }
      CanonicalTokensStable(value, ipFamily);
      CanonicalAllConcat([flag], rest, ipFamily);
      WellFormedConcat([flag], rest);
    } else {
      var c := WithPrefixLength(tok, ipFamily);
      assert canon == [c];
      assert ipFamily(c) == NotIP by {
        assert canon[0] == c;
      }
      assert PlainToken(tok);
      PlainValueNonEmpty(tok);
      SuffixedPlain(tok, ipFamily);
      KeptToken(c, ipFamily);
    }
  }

  /** A plain `--to-destination=` token has a value after the `=`. */
  lemma PlainValueNonEmpty(tok: string)
    requires PlainToken(tok)
    ensures HasPrefix(tok, ToDestinationAssign) ==> |tok| > |ToDestinationAssign|
  {
  }

  /** A plain token that is no `--to-destination=` token stays one when its
      prefix length is added. */
  lemma SuffixedPlain(tok: string, ipFamily: string -> IPFamily)
    requires PlainToken(tok) && !HasPrefix(tok, ToDestinationAssign)
    ensures PlainToken(WithPrefixLength(tok, ipFamily))
    ensures !HasPrefix(WithPrefixLength(tok, ipFamily), ToDestinationAssign)
  {
    if ipFamily(tok) != NotIP {
      PrefixedAddressPlain(tok, ipFamily);
    } else {
      assert WithPrefixLength(tok, ipFamily) == tok + "" == tok;
    }
  }

  /** A well-formed token that is no address and no `--to-destination=`
      token is its own canonical form. */
  lemma KeptToken(tok: string, ipFamily: string -> IPFamily)
    requires WellFormedToken(tok) && !HasPrefix(tok, ToDestinationAssign)
    requires ipFamily(tok) == NotIP
    ensures AllWellFormed([tok])
    ensures CanonicalAll([tok], ipFamily) == [tok]
  {
    assert CanonicalTokens(tok, ipFamily) == [tok + ""];
    assert tok + "" == tok;
    assert CanonicalAll([tok], ipFamily) == CanonicalTokens(tok, ipFamily) + CanonicalAll([], ipFamily);
  }

  lemma WellFormedInsert(before: seq<string>, tok: string, after: seq<string>)
    requires AllWellFormed(before) && WellFormedToken(tok) && AllWellFormed(after)
    ensures AllWellFormed(before + [tok] + after)
  {
    var xs := before + [tok] + after;
    forall k | 0 <= k < |xs| ensures WellFormedToken(xs[k]) {
      if k < |before| {
        assert xs[k] == before[k];
      } else if k > |before| {
        assert xs[k] == after[k - |before| - 1];
      }
    }
  }

  lemma CanonicalAllInsert(before: seq<string>, tok: string, after: seq<string>, ipFamily: string -> IPFamily)
    ensures CanonicalAll(before + [tok] + after, ipFamily)
         == CanonicalAll(before, ipFamily) + CanonicalTokens(tok, ipFamily) + CanonicalAll(after, ipFamily)
  {
    CanonicalAllConcat(before + [tok], after, ipFamily);
    CanonicalAllConcat(before, [tok], ipFamily);
    assert CanonicalAll([tok], ipFamily) == CanonicalTokens(tok, ipFamily) + CanonicalAll([], ipFamily);
    assert CanonicalAll([tok], ipFamily) == CanonicalTokens(tok, ipFamily);
  }

  /** A quoted token ends at its closing quote, and the one character after
      it is skipped whatever it is, as if it were the separating space. */
  lemma QuoteSkipsNextCharacter(tok: string, c: char, rest: string, acc: string, ipFamily: string -> IPFamily)
    requires QuotedToken(tok)
    ensures NormalizeFrom(tok + [c] + rest, acc, ipFamily) == NormalizeFrom(tok + " " + rest, acc, ipFamily)
  {
    QuotedStep(tok, c, rest, acc, ipFamily);
    QuotedStep(tok, ' ', rest, acc, ipFamily);
    assert tok + " " + rest == tok + [' '] + rest;
  }

  /** A quoted token ends at its closing quote, whatever character follows. */
  lemma QuotedStep(tok: string, c: char, rest: string, acc: string, ipFamily: string -> IPFamily)
    requires QuotedToken(tok)
    ensures NormalizeFrom(tok + [c] + rest, acc, ipFamily)
         == NormalizeFrom(rest, Appended(acc, WithPrefixLength(tok, ipFamily)), ipFamily)
  {
    var a := tok + [c] + rest;
    assert a == tok + ([c] + rest);
    QuotedTokenEnd(tok, [c] + rest);
    assert a[..|tok|] == tok && a[|tok| + 1..] == rest;
    CanonicalArgUntrimmed(tok, ipFamily);
  }

  // ----- How EnsureRule spells its arguments -----

  predicate IsAscii(s: string) {
    forall k :: 0 <= k < |s| ==> s[k] < '\U{80}'
  }

  const HexDigits := "0123456789abcdef"

  /** How strconv.Quote, behind the %q verb, writes one ASCII character:
      the quote and the backslash are escaped, other printable characters
      are kept, the seven control characters with a C escape get it, and the
      remaining ones are written in hexadecimal. */
  function QuoteChar(c: char): (r: string)
    requires c < '\U{80}'
    ensures |r| > 0
    ensures ' ' <= c <= '~' && c != '"' && c != '\\' ==> r == [c]
  {
    if c == '"' || c == '\\' then ['\\', c]
    else if ' ' <= c <= '~' then [c]
    else if c == '\U{7}' then "\\a"
    else if c == '\U{8}' then "\\b"
    else if c == '\U{c}' then "\\f"
    else if c == '\n' then "\\n"
    else if c == '\r' then "\\r"
    else if c == '\t' then "\\t"
    else if c == '\U{b}' then "\\v"
    else "\\x" + [HexDigits[c as int / 16], HexDigits[c as int % 16]]
  }

  function QuoteChars(s: string): string
    requires IsAscii(s)
    decreases |s|
  {
    if s == [] then "" else QuoteChar(s[0]) + QuoteChars(s[1..])
  }

  /** The %q verb on an ASCII string. */
  function GoQuote(s: string): string
    requires IsAscii(s)
  {
    "\"" + QuoteChars(s) + "\""
  }

  /** What %q leaves unescaped: printable ASCII other than the quote and
      the backslash. */
  predicate QuoteSafe(arg: string) {
    forall k :: 0 <= k < |arg| ==> ' ' <= arg[k] <= '~' && arg[k] != '"' && arg[k] != '\\'
  }

  /** Text that needs no escaping comes out of %q merely wrapped in quotes. */
  lemma {:induction false} GoQuoteSafe(s: string)
    requires QuoteSafe(s)
    ensures IsAscii(s) && GoQuote(s) == "\"" + s + "\""
  {
    QuoteCharsSafe(s);
  }

  lemma {:induction false} QuoteCharsSafe(s: string)
    requires QuoteSafe(s)
    ensures IsAscii(s) && QuoteChars(s) == s
    decreases |s|
  {
    if s != [] {
      assert QuoteSafe(s[1..]) by {
        forall k | 0 <= k < |s[1..]| ensures ' ' <= s[1..][k] <= '~' && s[1..][k] != '"' && s[1..][k] != '\\' {
          assert s[1..][k] == s[k + 1];
        }
      }
      QuoteCharsSafe(s[1..]);
      assert s == [s[0]] + s[1..];
    }
  }

  /** An argument containing a space is written with %q, as one quoted
      token; other arguments are kept as they are. */
  function QuoteArg(arg: string): string
    requires ' ' in arg ==> IsAscii(arg)
  {
    if ' ' in arg then GoQuote(arg) else arg
  }

  /** What the model of EnsureRule accepts: %q is modelled on ASCII text. */
  predicate Quotable(args: seq<string>) {
    forall k :: 0 <= k < |args| ==> ' ' in args[k] ==> IsAscii(args[k])
  }

  function QuoteArgs(args: seq<string>): (r: seq<string>)
    requires Quotable(args)
    ensures |r| == |args| && forall k :: 0 <= k < |args| ==> r[k] == QuoteArg(args[k])
  {
    seq(|args|, k requires 0 <= k < |args| => QuoteArg(args[k]))
  }

  /** Arguments the model of EnsureRule accepts as single tokens: plain ones,
      or ones with a space that %q wraps without escaping. */
  predicate ArgsWellFormed(args: seq<string>) {
    && Quotable(args)
    && forall k :: 0 <= k < |args| ==> (' ' in args[k] && QuoteSafe(args[k])) || PlainToken(args[k])
  }

  /** EnsureRule's quoting turns well-formed arguments into well-formed
      tokens; in particular an argument with a space, once quoted, is a
      single quoted token that the normaliser keeps whole. */
  lemma QuotedArgsWellFormed(args: seq<string>)
    requires ArgsWellFormed(args)
    ensures AllWellFormed(QuoteArgs(args))
    ensures forall k :: 0 <= k < |args| && ' ' in args[k] ==> QuotedToken(QuoteArgs(args)[k])
  {
    forall k | 0 <= k < |args| ensures WellFormedToken(QuoteArgs(args)[k])
      && (' ' in args[k] ==> QuotedToken(QuoteArgs(args)[k]))
    {
      var a := args[k];
      if ' ' in a {
        var q := "\"" + a + "\"";
        GoQuoteSafe(a);
        assert q[1..|q| - 1] == a;
        assert QuotedToken(q);
      } else {
        assert PlainToken(a);
      }
    }
  }

  /** With well-formed arguments, EnsureRule stores exactly their canonical
      tokens joined by single spaces; a quoted argument that the classifier
      does not call an address comes through with both quotes. */
  lemma QuotedArgsNormalize(args: seq<string>, ipFamily: string -> IPFamily)
    requires |args| > 0 && ArgsWellFormed(args)
    ensures Normalize(Join(QuoteArgs(args), " "), ipFamily) == Ok(Join(CanonicalAll(QuoteArgs(args), ipFamily), " "))
  {
    QuotedArgsWellFormed(args);
    NormalizeWellFormed(QuoteArgs(args), ipFamily);
  }

  lemma QuotedTokenKept(tok: string, ipFamily: string -> IPFamily)
    requires QuotedToken(tok) && ipFamily(tok) == NotIP
    ensures CanonicalTokens(tok, ipFamily) == [tok]
  {
    assert tok[0] != ToDestinationAssign[0];
    assert CanonicalTokens(tok, ipFamily) == [tok + ""];
    assert tok + "" == tok;
  }
}
