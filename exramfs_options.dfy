/**
 * The mount-option parser of exramfs (exramfs_parse_options).
 *
 * The option string is split on ',' the way strsep does it, empty tokens are
 * skipped, a token "mode=<octal>" sets the root mode to the value masked with
 * 07777, every other token is ignored, and a mode value that cannot be
 * decoded ends the parse with -EINVAL. The default mode is 0755.
 *
 * match_token and match_octal come from the kernel's option-parsing library,
 * which is not part of this model. They are modelled conservatively: a token
 * is recognised as a mode option when it is "mode=" followed by one or more
 * octal digits, and decoding fails exactly when the value does not fit in a
 * C int.
 */
module MountOptions {
  import opened Wrappers
  import opened KernelDefs

  const EXRAMFS_DEFAULT_MODE: Mode := 0x1ED   // 0755

  // ---------------------------------------------------------------------
  // strsep(&data, ",")

  /** Index of the first ',' in s, or |s| when s has none. */
  function CommaIndex(s: string): (i: nat)
    ensures i <= |s|
    ensures i < |s| ==> s[i] == ','
    ensures forall j :: 0 <= j < i ==> s[j] != ','
  {
    if s == [] then 0
    else if s[0] == ',' then 0
    else 1 + CommaIndex(s[1..])
  }

  /**
   * One strsep step on a non-NULL string: the token before the first ',' and
   * what is left after it (None, the NULL pointer, when there was no ',').
   */
  function StrSep(s: string): (r: (string, Option<string>))
    ensures ',' !in r.0
    ensures r.1.None? ==> r.0 == s
    ensures r.1.Some? ==> s == r.0 + [','] + r.1.value
  {
    var i := CommaIndex(s);
    if i < |s| then
      assert s == s[..i] + [','] + s[i + 1..];
      (s[..i], Some(s[i + 1..]))
    else
      (s, None)
  }

  /** Termination measure for the strsep loop: NULL is smallest. */
  function Size(data: Option<string>): nat
  {
    match data
    case None => 0
    case Some(s) => |s| + 1
  }

  /** Every token strsep hands out, in order, until it returns NULL. */
  function Tokens(data: Option<string>): seq<string>
    decreases Size(data)
  {
    match data
    case None => []
    case Some(s) =>
      var r := StrSep(s);
      [r.0] + Tokens(r.1)
  }

  /** The tokens put back together with ',' between them. */
  function Join(toks: seq<string>): string
  {
    if toks == [] then []
    else if |toks| == 1 then toks[0]
    else toks[0] + [','] + Join(toks[1..])
  }

  /** Number of occurrences of c in s. */
  function Count(s: string, c: char): nat
  {
    if s == [] then 0 else (if s[0] == c then 1 else 0) + Count(s[1..], c)
  }

  lemma {:induction false} CountAppend(a: string, b: string, c: char)
    ensures Count(a + b, c) == Count(a, c) + Count(b, c)
  {
    if a != [] {
      assert (a + b)[1..] == a[1..] + b;
      CountAppend(a[1..], b, c);
    } else {
      assert a + b == b;
    }
  }

  lemma {:induction false} CountAbsent(s: string, c: char)
    requires c !in s
    ensures Count(s, c) == 0
  {
    if s != [] {
      CountAbsent(s[1..], c);
    }
  }

  /**
   * Splitting is lossless: joining the tokens of a non-NULL string gives it
   * back, no token holds a ',', and there is one token more than there are
   * commas (so the empty string gives one empty token).
   */
  lemma {:induction false} TokensJoin(s: string)
    ensures |Tokens(Some(s))| == Count(s, ',') + 1
    ensures Join(Tokens(Some(s))) == s
    ensures forall t :: t in Tokens(Some(s)) ==> ',' !in t
    decreases |s|
  {
    var r := StrSep(s);
    CountAbsent(r.0, ',');
    if r.1.Some? {
      var rest := r.1.value;
      TokensJoin(rest);
      assert s == r.0 + ([','] + rest);
      CountAppend(r.0, [','] + rest, ',');
      CountAppend([','], rest, ',');
      assert Count([','], ',') == 1 + Count([], ',');
      var tail := Tokens(Some(rest));
      assert Tokens(Some(s)) == [r.0] + tail;
      assert ([r.0] + tail)[1..] == tail;
    } else {
      assert Tokens(Some(s)) == [r.0];
    }
  }

  /** A string made only of commas splits into empty tokens only. */
  lemma {:induction false} OnlyCommasGiveEmptyTokens(s: string)
    requires forall k :: 0 <= k < |s| ==> s[k] == ','
    ensures forall t :: t in Tokens(Some(s)) ==> t == ""
    decreases |s|
  {
    var r := StrSep(s);
    assert r.0 == "";
    if r.1.Some? {
      var rest := r.1.value;
      forall k | 0 <= k < |rest| ensures rest[k] == ',' {
        assert rest[k] == s[|r.0| + 1 + k];
      }
      OnlyCommasGiveEmptyTokens(rest);
    }
  }

  // ---------------------------------------------------------------------
  // match_token (pattern "mode=%o") and match_octal

  predicate IsOctalDigit(c: char)
  {
    '0' <= c <= '7'
  }

  function DigitValue(c: char): nat
    requires IsOctalDigit(c)
  {
    c as nat - '0' as nat
  }

  /** The number an octal numeral denotes (0 for the empty numeral). */
  function OctalValue(ds: string): nat
    requires forall k :: 0 <= k < |ds| ==> IsOctalDigit(ds[k])
  {
    if ds == [] then 0 else OctalValue(ds[..|ds| - 1]) * 8 + DigitValue(ds[|ds| - 1])
  }

  /** The octal numeral of v, without leading zeros. */
  function OctalDigits(v: nat): (ds: string)
    ensures |ds| > 0
    ensures forall k :: 0 <= k < |ds| ==> IsOctalDigit(ds[k])
  {
    if v < 8 then ['0' + v as char]
    else OctalDigits(v / 8) + ['0' + (v % 8) as char]
  }

  /** Decoding undoes encoding. */
  lemma {:induction false} OctalRoundTrip(v: nat)
    ensures OctalValue(OctalDigits(v)) == v
  {
    var ds := OctalDigits(v);
    if v >= 8 {
      OctalRoundTrip(v / 8);
      assert ds[..|ds| - 1] == OctalDigits(v / 8);
    }
  }

  /** The text after "mode=" when the token matches "mode=%o", else None. */
  function MatchMode(tok: string): (arg: Option<string>)
    ensures arg.Some? ==> tok == "mode=" + arg.value && |arg.value| > 0
  {
    if |tok| > 5 && tok[..5] == "mode="
       && forall k :: 5 <= k < |tok| ==> IsOctalDigit(tok[k])
    then
      assert tok == "mode=" + tok[5..];
      Some(tok[5..])
    else None
  }

  /** match_octal: the value of an octal numeral, or None when the decode fails. */
  function MatchOctal(arg: string): (v: Option<nat>)
    ensures v.Some? ==> v.value <= INT_MAX
  {
    if |arg| > 0 && (forall k :: 0 <= k < |arg| ==> IsOctalDigit(arg[k]))
       && OctalValue(arg) <= INT_MAX
    then Some(OctalValue(arg))
    else None
  }

  /** option & S_IALLUGO, stored into the 16-bit umode_t. */
  function Mask(v: nat): (m: Mode)
    requires v <= INT_MAX
    ensures m <= S_IALLUGO
  {
    var masked := (v as bv32) & (S_IALLUGO as bv32);
    masked as bv16
  }

  /** Tokens the parser passes over: empty ones and unrecognised ones. */
  predicate Ignored(tok: string)
  {
    tok == "" || MatchMode(tok).None?
  }

  /** A recognised mode token whose value cannot be decoded. */
  predicate BadMode(tok: string)
  {
    tok != "" && MatchMode(tok).Some? && MatchOctal(MatchMode(tok).value).None?
  }

  // ---------------------------------------------------------------------
  // The parse as a function over the token list

  /** The status the parser returns and the value it left in *mode. */
  datatype Parsed = Parsed(err: int, mode: Mode)

  /** The parse of a token list, starting from the value already in *mode. */
  function ParseTokens(toks: seq<string>, mode: Mode): Parsed
    decreases |toks|
  {
    if toks == [] then Parsed(0, mode)
    else
      var t := toks[0];
      if t == "" then ParseTokens(toks[1..], mode)
      else match MatchMode(t)
        case None => ParseTokens(toks[1..], mode)
        case Some(arg) =>
          match MatchOctal(arg)
          case None => Parsed(-EINVAL, mode)
          case Some(v) => ParseTokens(toks[1..], Mask(v))
  }

  /** The result of exramfs_parse_options on a (possibly NULL) option string. */
  function Parse(data: Option<string>): Parsed
  {
    ParseTokens(Tokens(data), EXRAMFS_DEFAULT_MODE)
  }

  // ---------------------------------------------------------------------
  // exramfs_parse_options

  /** Splits with strsep, skips empty tokens and updates mode token by token. */
  method ParseOptions(data: Option<string>) returns (err: int, mode: Mode)
    ensures Parsed(err, mode) == Parse(data)
  {
    mode := EXRAMFS_DEFAULT_MODE;
    var rest := data;
    while rest.Some?
      invariant ParseTokens(Tokens(rest), mode) == Parse(data)
      decreases Size(rest)
    {
      var step := StrSep(rest.value);
      var p := step.0;
      assert Tokens(rest) == [p] + Tokens(step.1);
      assert ([p] + Tokens(step.1))[1..] == Tokens(step.1);
      rest := step.1;
      if p == "" {
        continue;
      }
      var arg := MatchMode(p);
      if arg.Some? {
        var option := MatchOctal(arg.value);
        if option.None? {
          return -EINVAL, mode;
        }
        mode := Mask(option.value);
      }
    }
    return 0, mode;
  }

  // ---------------------------------------------------------------------
  // Properties of the parse

  /** The parse of a concatenation: the second part runs only if the first succeeded. */
  lemma {:induction false} ParseAppend(a: seq<string>, b: seq<string>, mode: Mode)
    ensures ParseTokens(a + b, mode)
         == (var r := ParseTokens(a, mode); if r.err != 0 then r else ParseTokens(b, r.mode))
    decreases |a|
  {
    if a == [] {
      assert a + b == b;
    } else {
      assert (a + b)[0] == a[0];
      assert (a + b)[1..] == a[1..] + b;
      var t := a[0];
      if !BadMode(t) {
        var next := if t == "" || MatchMode(t).None? then mode
                    else Mask(MatchOctal(MatchMode(t).value).value);
        ParseAppend(a[1..], b, next);
      }
    }
  }

  /** A list of ignored tokens leaves the mode alone and succeeds. */
  lemma {:induction false} IgnoredTokensChangeNothing(toks: seq<string>, mode: Mode)
    requires forall k :: 0 <= k < |toks| ==> Ignored(toks[k])
    ensures ParseTokens(toks, mode) == Parsed(0, mode)
    decreases |toks|
  {
    if toks != [] {
      IgnoredTokensChangeNothing(toks[1..], mode);
    }
  }

  /** An ignored token can be dropped anywhere without changing the outcome. */
  lemma IgnoredTokenIsSkipped(pre: seq<string>, t: string, post: seq<string>, mode: Mode)
    requires Ignored(t)
    ensures ParseTokens(pre + [t] + post, mode) == ParseTokens(pre + post, mode)
  {
    assert pre + [t] + post == pre + ([t] + post);
    ParseAppend(pre, [t] + post, mode);
    ParseAppend(pre, post, mode);
    assert ([t] + post)[1..] == post;
  }

  /** "mode=" followed by the octal numeral of a value up to INT_MAX decodes to that value. */
  lemma ModeTokenDecodes(v: nat)
    requires v <= INT_MAX
    ensures MatchMode("mode=" + OctalDigits(v)) == Some(OctalDigits(v))
    ensures MatchOctal(OctalDigits(v)) == Some(v)
  {
    var t := "mode=" + OctalDigits(v);
    OctalRoundTrip(v);
    assert t[..5] == "mode=" && t[5..] == OctalDigits(v);
  }

  /** The last decodable mode token wins, whatever came before it. */
  lemma LastModeWins(pre: seq<string>, t: string, v: nat, post: seq<string>, mode: Mode)
    requires ParseTokens(pre, mode).err == 0
    requires MatchMode(t).Some? && MatchOctal(MatchMode(t).value) == Some(v)
    requires forall k :: 0 <= k < |post| ==> Ignored(post[k])
    ensures ParseTokens(pre + [t] + post, mode) == Parsed(0, Mask(v))
  {
    assert pre + [t] + post == pre + ([t] + post);
    ParseAppend(pre, [t] + post, mode);
    assert ([t] + post)[1..] == post;
    IgnoredTokensChangeNothing(post, Mask(v));
  }

  /** A string without ',' is a single token. */
  lemma SingleToken(s: string)
    requires ',' !in s
    ensures Tokens(Some(s)) == [s]
  {
    assert StrSep(s) == (s, None);
  }

  /** A numeral with a leading zero is decoded too: "mode=0700" gives 0700. */
  lemma LeadingZeroMode()
    ensures Parse(Some("mode=0700")) == Parsed(0, 0x1C0)
  {
    var t := "mode=0700";
    SingleToken(t);
    ZeroSevenHundred();
    LastModeWins([], t, 448, [], EXRAMFS_DEFAULT_MODE);
    assert [] + [t] + [] == [t];
  }

  /** "mode=0700" is a mode token whose argument decodes to 448, kept whole by the mask. */
  lemma ZeroSevenHundred()
    ensures MatchMode("mode=0700") == Some("0700")
    ensures MatchOctal("0700") == Some(448)
    ensures Mask(448) == 0x1C0
  {
    var ds := "0700";
    assert "mode=0700"[..5] == "mode=" && "mode=0700"[5..] == ds;
    assert ds[..|ds| - 1] == "070";
    assert "070"[..|"070"| - 1] == "07";
    assert "07"[..|"07"| - 1] == "0";
    assert "0"[..|"0"| - 1] == "";
    assert OctalValue("0") == 0;
    assert OctalValue("07") == 7;
    assert OctalValue("070") == 56;
    assert OctalValue(ds) == 448;
  }

  /**
   * A token with anything but octal digits after "mode=" is not a mode
   * token, so it is skipped: "mode=777x" leaves the default 0755.
   */
  lemma MalformedModeIsIgnored()
    ensures Parse(Some("mode=777x")) == Parsed(0, EXRAMFS_DEFAULT_MODE)
  {
    var t := "mode=777x";
    SingleToken(t);
    NotAModeToken();
    IgnoredTokensChangeNothing([t], EXRAMFS_DEFAULT_MODE);
  }

  /** "mode=777x" does not match "mode=%o". */
  lemma NotAModeToken()
    ensures MatchMode("mode=777x").None?
  {
    assert !IsOctalDigit("mode=777x"[8]);
  }

  /** A mode token that fails to decode stops the parse at once with -EINVAL. */
  lemma BadModeStops(pre: seq<string>, t: string, post: seq<string>, mode: Mode)
    requires ParseTokens(pre, mode).err == 0
    requires BadMode(t)
    ensures ParseTokens(pre + [t] + post, mode) == Parsed(-EINVAL, ParseTokens(pre, mode).mode)
  {
    assert pre + [t] + post == pre + ([t] + post);
    ParseAppend(pre, [t] + post, mode);
  }

  /** NULL, the empty string, and strings of commas only give 0755. */
  lemma {:induction false} EmptyOptionsGiveDefault(s: string)
    requires forall k :: 0 <= k < |s| ==> s[k] == ','
    ensures Parse(None) == Parsed(0, EXRAMFS_DEFAULT_MODE)
    ensures Parse(Some(s)) == Parsed(0, EXRAMFS_DEFAULT_MODE)
  {
    OnlyCommasGiveEmptyTokens(s);
    var toks := Tokens(Some(s));
    forall k | 0 <= k < |toks| ensures Ignored(toks[k]) {
      assert toks[k] in toks;
    }
    IgnoredTokensChangeNothing(toks, EXRAMFS_DEFAULT_MODE);
  }

  /**
   * The parse fails only with -EINVAL, and it fails exactly when some token
   * is a mode token whose value cannot be decoded.
   */
  lemma {:induction false} ParseErrors(toks: seq<string>, mode: Mode)
    ensures ParseTokens(toks, mode).err == 0 || ParseTokens(toks, mode).err == -EINVAL
    ensures ParseTokens(toks, mode).err == -EINVAL <==> exists k :: 0 <= k < |toks| && BadMode(toks[k])
    decreases |toks|
  {
    if toks != [] {
      ParseErrors(toks[1..], if Ignored(toks[0]) || BadMode(toks[0]) then mode
                             else Mask(MatchOctal(MatchMode(toks[0]).value).value));
      assert forall k :: 0 < k < |toks| ==> toks[k] == toks[1..][k - 1];
      if exists k :: 0 < k < |toks| && BadMode(toks[k]) {
        var k :| 0 < k < |toks| && BadMode(toks[k]);
        assert BadMode(toks[1..][k - 1]);
      }
    }
  }

  /** Starting from permission bits, every mode the parse stores is permission bits. */
  lemma {:induction false} ParseKeepsPermissions(toks: seq<string>, mode: Mode)
    requires mode <= S_IALLUGO
    ensures ParseTokens(toks, mode).mode <= S_IALLUGO
    decreases |toks|
  {
    if toks != [] {
      ParseKeepsPermissions(toks[1..], if Ignored(toks[0]) || BadMode(toks[0]) then mode
                                        else Mask(MatchOctal(MatchMode(toks[0]).value).value));
    }
  }

  /** The mode the parser leaves behind never has bits outside 07777. */
  lemma ParsedModeFitsPermissions(data: Option<string>)
    ensures Parse(data).mode <= S_IALLUGO
  {
    ParseKeepsPermissions(Tokens(data), EXRAMFS_DEFAULT_MODE);
  }
}
