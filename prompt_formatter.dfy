/**
 * Post-processing of a generated session summary before it is posted: emoji
 * removal, bolding of price figures, the HTML-aware trim and the report
 * assembly with its fallback for an empty summary.
 */
module PromptFormatter {
  import opened Wrappers
  import Text
  import Config

  const MaxTelegramMessageLength: int := 4096

  /** The closing quotes, one of which a report carries. */
  const SniperQuotes: seq<string> := [
    "Liquidity fuels intention. Timing defines direction.",
    "Smart money hides in silence, not noise.",
    "The map is time. The weapon is structure.",
    "Volume reveals intention. Time confirms execution.",
    "You don\U{2019}t chase price. You anticipate narrative.",
    "Every candle is a question. Smart money answers with traps.",
    "Retail sees levels. Institutions see liquidity.",
    "The game isn\U{2019}t entry. The game is understanding.",
    "True power is not prediction \U{2014} it\U{2019}s preparation.",
    "Price speaks loudest in silence.",
    "Wicks are whispers \U{2014} hear what price refuses to say.",
    "When price hesitates, smart money accumulates.",
    "Trade during peace, and rest during war.",
    "The war is not over.",
    "Green or Red Candle? Remember, there is no turning back ",
    "The choice is yours\U{2026} execution defines reality."
  ]

  // ---------------------------------------------------------------------------
  // Emoji removal
  // ---------------------------------------------------------------------------

  /** The code-point ranges of the emoji pattern. */
  predicate IsEmoji(c: char) {
    var v := c as int;
    || 0x1F600 <= v <= 0x1F64F
    || 0x1F300 <= v <= 0x1F5FF
    || 0x1F680 <= v <= 0x1F6FF
    || 0x1F1E0 <= v <= 0x1F1FF
    || 0x2500 <= v <= 0x2BEF
    || 0x2702 <= v <= 0x27B0
    || 0x24C2 <= v <= 0x1F251
  }

  /** Deletes every character in the emoji ranges. */
  function RemoveEmojis(s: string): (r: string)
    ensures |r| <= |s|
    ensures forall i :: 0 <= i < |r| ==> !IsEmoji(r[i])
    ensures forall i :: 0 <= i < |r| ==> r[i] in s
    decreases |s|
  {
    if s == [] then []
    else (if IsEmoji(s[0]) then [] else [s[0]]) + RemoveEmojis(s[1..])
  }

  /** Removal works character by character: it distributes over concatenation. */
  lemma {:induction false} RemoveEmojisAppend(a: string, b: string)
    ensures RemoveEmojis(a + b) == RemoveEmojis(a) + RemoveEmojis(b)
    decreases |a|
  {
    var ab := a + b;
    if a == [] {
      assert ab == b;
    } else {
      assert ab != [] && ab[0] == a[0] && ab[1..] == a[1..] + b;
      RemoveEmojisAppend(a[1..], b);
      var head := if IsEmoji(a[0]) then [] else [a[0]];
      assert RemoveEmojis(ab) == head + RemoveEmojis(a[1..] + b);
      assert RemoveEmojis(a) == head + RemoveEmojis(a[1..]);
    }
  }

  /** Text without emoji is unchanged, so removing twice is removing once. */
  lemma {:induction false} RemoveEmojisKeepsOthers(s: string)
    requires forall i :: 0 <= i < |s| ==> !IsEmoji(s[i])
    ensures RemoveEmojis(s) == s
    decreases |s|
  {
    if s != [] {
      RemoveEmojisKeepsOthers(s[1..]);
      assert s == [s[0]] + s[1..];
    }
  }

  lemma RemoveEmojisIdempotent(s: string)
    ensures RemoveEmojis(RemoveEmojis(s)) == RemoveEmojis(s)
  {
    RemoveEmojisKeepsOthers(RemoveEmojis(s));
  }

  // ---------------------------------------------------------------------------
  // Price bolding: `\b(\d{3,5}\.\d{2})\b`
  // ---------------------------------------------------------------------------

  /** A word character for `\b`. */
  predicate IsWordChar(c: char) {
    Text.IsAsciiLetter(c) || Text.IsAsciiDigit(c) || c == '_'
  }

  /** 3 to 5 digits, a point and 2 digits. */
  predicate IsPriceToken(t: string) {
    && 6 <= |t| <= 8
    && (forall i :: 0 <= i < |t| - 3 ==> Text.IsAsciiDigit(t[i]))
    && t[|t| - 3] == '.'
    && Text.IsAsciiDigit(t[|t| - 2])
    && Text.IsAsciiDigit(t[|t| - 1])
  }

  function DigitRun(s: string): (n: nat)
    ensures n <= |s|
    ensures forall i :: 0 <= i < n ==> Text.IsAsciiDigit(s[i])
    ensures n < |s| ==> !Text.IsAsciiDigit(s[n])
    decreases |s|
  {
    if s != [] && Text.IsAsciiDigit(s[0]) then 1 + DigitRun(s[1..]) else 0
  }

  /**
   * The length of the price token at the start of `s`, when the character
   * before it (`prevWord`) is not a word character.
   */
  function PriceAt(s: string, prevWord: bool): (r: Option<nat>)
    ensures r.Some? ==> 6 <= r.value <= |s| && s[r.value - 3] == '.'
    ensures r.Some? ==> !prevWord && (r.value == |s| || !IsWordChar(s[r.value]))
  {
    if prevWord then None
    else
      var n := DigitRun(s);
      if 3 <= n <= 5 && n + 3 <= |s| && s[n] == '.' && Text.IsAsciiDigit(s[n + 1]) && Text.IsAsciiDigit(s[n + 2])
         && (n + 3 == |s| || !IsWordChar(s[n + 3]))
      then Some(n + 3)
      else None
  }

  /** A piece of scanned text: one ordinary character, or a price token. */
  datatype Piece = Plain(c: char) | Price(token: string)

  /** The left-to-right scan of the pattern; `prevWord` tells whether the preceding character is a word character. */
  function Scan(s: string, prevWord: bool): seq<Piece>
    decreases |s|
  {
    if s == [] then []
    else match PriceAt(s, prevWord)
      case Some(n) => [Price(s[..n])] + Scan(s[n..], true)
      case None => [Plain(s[0])] + Scan(s[1..], IsWordChar(s[0]))
  }

  function PieceText(p: Piece): string {
    match p
    case Plain(c) => [c]
    case Price(t) => t
  }

  function Concat(pieces: seq<Piece>): string
    decreases |pieces|
  {
    if pieces == [] then [] else PieceText(pieces[0]) + Concat(pieces[1..])
  }

  function Bold(t: string): string {
    "<b>" + t + "</b>"
  }

  /** Prints the pieces, bolding each price unless its bold form occurs in `original`. */
  function RenderPiece(p: Piece, original: string): string {
    match p
    case Plain(c) => [c]
    case Price(t) => if Text.Contains(original, Bold(t)) then t else Bold(t)
  }

  function Render(pieces: seq<Piece>, original: string): string
    decreases |pieces|
  {
    if pieces == [] then [] else RenderPiece(pieces[0], original) + Render(pieces[1..], original)
  }

  /**
   * `format_price_values`: never shortens the text, and leaves text without a
   * point unchanged.
   */
  function FormatPriceValues(text: string): (r: string)
    ensures |r| >= |text|
    ensures '.' !in text ==> r == text
  {
    var pieces := Scan(text, false);
    ScanCoversText(text, false);
    RenderLengths(pieces, text);
    if '.' in text then Render(pieces, text)
    else
      NoPointNoPrice(text, false);
      RenderIsConcatIff(pieces, text);
      Render(pieces, text)
  }

  /** The scan loses and reorders nothing: its pieces spell the text. */
  lemma {:induction false} ScanCoversText(s: string, prevWord: bool)
    ensures Concat(Scan(s, prevWord)) == s
    decreases |s|
  {
    if s != [] {
      match PriceAt(s, prevWord)
      case Some(n) =>
        ScanCoversText(s[n..], true);
        assert s == s[..n] + s[n..];
      case None =>
        ScanCoversText(s[1..], IsWordChar(s[0]));
        assert s == [s[0]] + s[1..];
    }
  }

  /**
   * Every price piece has the price shape, is not preceded by a word character
   * and is followed by a non-word character or the end.
   */
  predicate PricesBounded(ps: seq<Piece>, prevWord: bool) {
    forall k :: 0 <= k < |ps| && ps[k].Price? ==>
      && IsPriceToken(ps[k].token)
      && (k == 0 ==> !prevWord)
      && (k > 0 ==> ps[k - 1].Plain? && !IsWordChar(ps[k - 1].c))
      && (k + 1 < |ps| ==> ps[k + 1].Plain? && !IsWordChar(ps[k + 1].c))
  }

  lemma {:induction false} ScanPricesAreBounded(s: string, prevWord: bool)
    ensures PricesBounded(Scan(s, prevWord), prevWord)
    decreases |s|
  {
    if s != [] {
      var ps := Scan(s, prevWord);
      match PriceAt(s, prevWord)
      case Some(n) =>
        PriceAtIff(s, prevWord, n);
        ScanPricesAreBounded(s[n..], true);
        var rest := Scan(s[n..], true);
        ScanPriceUnfold(s, prevWord, n);
        if n < |s| {
          assert PriceAt(s[n..], true) == None;
          assert rest[0] == Plain(s[n..][0]);
        }
        forall k | 0 < k < |ps| && ps[k].Price?
          ensures IsPriceToken(ps[k].token)
          ensures ps[k - 1].Plain? && !IsWordChar(ps[k - 1].c)
          ensures k + 1 < |ps| ==> ps[k + 1].Plain? && !IsWordChar(ps[k + 1].c)
        {
          assert ps[k] == rest[k - 1];
          assert ps[k - 1] == rest[k - 2];
          if k + 1 < |ps| {
            assert ps[k + 1] == rest[k];
          }
        }
      case None =>
        ScanPricesAreBounded(s[1..], IsWordChar(s[0]));
        var rest := Scan(s[1..], IsWordChar(s[0]));
        ScanPlainUnfold(s, prevWord);
        forall k | 0 < k < |ps| && ps[k].Price?
          ensures IsPriceToken(ps[k].token)
          ensures ps[k - 1].Plain? && !IsWordChar(ps[k - 1].c)
          ensures k + 1 < |ps| ==> ps[k + 1].Plain? && !IsWordChar(ps[k + 1].c)
        {
          assert ps[k] == rest[k - 1];
          if k > 1 {
            assert ps[k - 1] == rest[k - 2];
          }
          if k + 1 < |ps| {
            assert ps[k + 1] == rest[k];
          }
        }
    }
  }

  /** A price is left unbolded only when its bold form already occurs in the text. */
  predicate KeptAsIs(pieces: seq<Piece>, original: string) {
    forall k :: 0 <= k < |pieces| && pieces[k].Price? ==> Text.Contains(original, Bold(pieces[k].token))
  }

  /**
   * Rendering spells the pieces unchanged exactly when every price in them is
   * already bold somewhere in the original text.
   */
  lemma {:induction false} RenderIsConcatIff(pieces: seq<Piece>, original: string)
    ensures Render(pieces, original) == Concat(pieces) <==> KeptAsIs(pieces, original)
    decreases |pieces|
  {
    if pieces != [] {
      RenderIsConcatIff(pieces[1..], original);
      RenderLengths(pieces[1..], original);
      var head := pieces[0];
      var rest := pieces[1..];
      var h := RenderPiece(head, original);
      var c := PieceText(head);
      if head.Price? && !Text.Contains(original, Bold(head.token)) {
        assert |h| > |c|;
        assert !KeptAsIs(pieces, original);
      } else {
        assert h == c;
        if Render(pieces, original) == Concat(pieces) {
          assert Render(rest, original) == Render(pieces, original)[|c|..];
        }
        if KeptAsIs(pieces, original) {
          forall k | 0 <= k < |rest| && rest[k].Price?
            ensures Text.Contains(original, Bold(rest[k].token))
          {
            assert rest[k] == pieces[k + 1];
          }
        }
        if KeptAsIs(rest, original) {
          forall k | 0 <= k < |pieces| && pieces[k].Price?
            ensures Text.Contains(original, Bold(pieces[k].token))
          {
            if k > 0 {
              assert pieces[k] == rest[k - 1];
            }
          }
        }
      }
    }
  }

  lemma {:induction false} RenderLengths(pieces: seq<Piece>, original: string)
    ensures |Render(pieces, original)| >= |Concat(pieces)|
    decreases |pieces|
  {
    if pieces != [] {
      RenderLengths(pieces[1..], original);
    }
  }

  /** Text without a point holds no price and is left alone. */
  lemma {:induction false} NoPointNoPrice(s: string, prevWord: bool)
    requires '.' !in s
    ensures Scan(s, prevWord) == seq(|s|, i requires 0 <= i < |s| => Plain(s[i]))
    decreases |s|
  {
    if s != [] {
      var rest := s[1..];
      assert '.' !in rest by {
        forall i | 0 <= i < |rest|
          ensures rest[i] != '.'
        {
          assert rest[i] == s[i + 1];
        }
      }
      assert PriceAt(s, prevWord) == None by {
        assert DigitRun(s) < |s| ==> s[DigitRun(s)] != '.';
      }
      ScanPlainUnfold(s, prevWord);
      NoPointNoPrice(rest, IsWordChar(s[0]));
      var plain := seq(|s|, i requires 0 <= i < |s| => Plain(s[i]));
      var tail := seq(|rest|, i requires 0 <= i < |rest| => Plain(rest[i]));
      assert [Plain(s[0])] + tail == plain;
    }
  }

  /**
   * A price match of length `n` at the start of `s` is found exactly when the
   * previous character is not a word character, `s[..n]` has the price shape
   * and the character after it is not a word character.
   */
  lemma PriceAtIff(s: string, prevWord: bool, n: nat)
    requires n <= |s|
    ensures PriceAt(s, prevWord) == Some(n) <==>
              !prevWord && IsPriceToken(s[..n]) && (n == |s| || !IsWordChar(s[n]))
  {
    var t := s[..n];
    if PriceAt(s, prevWord) == Some(n) {
      var d := DigitRun(s);
      assert d == n - 3;
      forall i | 0 <= i < n - 3
        ensures Text.IsAsciiDigit(t[i])
      {
        assert t[i] == s[i];
      }
      assert t[n - 3] == s[n - 3] && t[n - 2] == s[n - 2] && t[n - 1] == s[n - 1];
    }
    if !prevWord && IsPriceToken(t) && (n == |s| || !IsWordChar(s[n])) {
      forall i | 0 <= i < n - 3
        ensures Text.IsAsciiDigit(s[i])
      {
        assert s[i] == t[i];
      }
      assert s[n - 3] == t[n - 3] && s[n - 2] == t[n - 2] && s[n - 1] == t[n - 1];
      assert !Text.IsAsciiDigit(s[n - 3]);
    }
  }

  /** A word character or a point: the characters a price token is made of. */
  predicate InToken(c: char) {
    IsWordChar(c) || c == '.'
  }

  /** Every character of a price token is a word character or the point. */
  lemma TokenChars(s: string, n: nat)
    requires n <= |s| && IsPriceToken(s[..n])
    ensures forall i :: 0 <= i < n ==> InToken(s[i])
  {
    var t := s[..n];
    forall i | 0 <= i < n
      ensures InToken(s[i])
    {
      assert s[i] == t[i];
    }
  }

  /**
   * No price match can run across the end of a text whose last character is
   * `c` and that goes on with `r`: `c` cannot belong to a token, or it is a
   * point followed by three digits (a match taking that point would end two
   * digits later, in front of a digit).
   */
  predicate SeamOk(c: char, r: string) {
    || !InToken(c)
    || (c == '.' && |r| >= 3 && Text.IsAsciiDigit(r[0]) && Text.IsAsciiDigit(r[1]) && Text.IsAsciiDigit(r[2]))
  }

  /** The characters of a price token of length `n` at the start of `s`. */
  lemma PriceTokenShape(s: string, n: nat)
    requires n <= |s| && IsPriceToken(s[..n])
    ensures forall i :: 0 <= i < n - 3 ==> Text.IsAsciiDigit(s[i])
    ensures s[n - 3] == '.' && Text.IsAsciiDigit(s[n - 2]) && Text.IsAsciiDigit(s[n - 1])
  {
    var t := s[..n];
    forall i | 0 <= i < n - 3
      ensures Text.IsAsciiDigit(s[i])
    {
      assert s[i] == t[i];
    }
    assert s[n - 3] == t[n - 3] && s[n - 2] == t[n - 2] && s[n - 1] == t[n - 1];
  }

  /**
   * At a seam no match can cross, a match at the start of `a + r` is one of
   * `a` and ends inside `a`.
   */
  lemma PriceAtPrefix(a: string, r: string, prevWord: bool)
    requires a != [] && SeamOk(a[|a| - 1], r)
    ensures PriceAt(a + r, prevWord) == PriceAt(a, prevWord)
    ensures PriceAt(a, prevWord).Some? ==> PriceAt(a, prevWord).value < |a|
  {
    var s := a + r;
    var p := PriceAt(s, prevWord);
    var q := PriceAt(a, prevWord);
    var last := |a| - 1;
    assert s[last] == a[last];
    if |r| >= 3 {
      assert s[|a|] == r[0] && s[|a| + 1] == r[1] && s[|a| + 2] == r[2];
    }
    if p.Some? {
      var n := p.value;
      PriceAtIff(s, prevWord, n);
      if InToken(a[last]) {
        PriceTokenShape(s, n);
      } else {
        TokenChars(s, n);
      }
      assert n < |a|;
      assert s[..n] == a[..n] && s[n] == a[n];
      PriceAtIff(a, prevWord, n);
    }
    if q.Some? {
      var n := q.value;
      PriceAtIff(a, prevWord, n);
      PriceTokenShape(a, n);
      assert n < |a|;
      assert s[..n] == a[..n] && s[n] == a[n];
      PriceAtIff(s, prevWord, n);
    }
  }

  /**
   * The scan of `a + r` is the scan of `a` followed by the scan of `r` when
   * no match can cross the seam between them.
   */
  lemma {:induction false} ScanSplit(a: string, r: string, prevWord: bool)
    requires a != [] && SeamOk(a[|a| - 1], r)
    ensures Scan(a + r, prevWord) == Scan(a, prevWord) + Scan(r, false)
    decreases |a|
  {
    PriceAtPrefix(a, r, prevWord);
    match PriceAt(a, prevWord)
    case Some(n) =>
      var a' := a[n..];
      assert a'[|a'| - 1] == a[|a| - 1];
      ScanSplit(a', r, true);
      ScanSplitPriceStep(a, r, prevWord, n);
    case None =>
      if |a| == 1 {
        ScanSplitLastStep(a, r, prevWord);
      } else {
        var a' := a[1..];
        assert a'[|a'| - 1] == a[|a| - 1];
        ScanSplit(a', r, IsWordChar(a[0]));
        ScanSplitPlainStep(a, r, prevWord);
      }
  }

  lemma SeqAssoc(p: seq<Piece>, x: seq<Piece>, y: seq<Piece>)
    ensures p + (x + y) == (p + x) + y
  {
  }

  /** One step of the scan where a price starts the text. */
  lemma ScanPriceUnfold(s: string, prevWord: bool, n: nat)
    requires PriceAt(s, prevWord) == Some(n)
    ensures Scan(s, prevWord) == [Price(s[..n])] + Scan(s[n..], true)
  {
  }

  /** One step of the scan where an ordinary character starts the text. */
  lemma ScanPlainUnfold(s: string, prevWord: bool)
    requires s != [] && PriceAt(s, prevWord) == None
    ensures Scan(s, prevWord) == [Plain(s[0])] + Scan(s[1..], IsWordChar(s[0]))
  {
  }

  /** The step of `ScanSplit` where a price starts `a`. */
  lemma ScanSplitPriceStep(a: string, r: string, prevWord: bool, n: nat)
    requires PriceAt(a, prevWord) == Some(n) && PriceAt(a + r, prevWord) == Some(n) && n < |a|
    requires Scan(a[n..] + r, true) == Scan(a[n..], true) + Scan(r, false)
    ensures Scan(a + r, prevWord) == Scan(a, prevWord) + Scan(r, false)
  {
    var s := a + r;
    var p := a[..n];
    assert s[..n] == p;
    assert s[n..] == a[n..] + r;
    ScanPriceUnfold(s, prevWord, n);
    ScanPriceUnfold(a, prevWord, n);
    var x := Scan(a[n..], true);
    var y := Scan(r, false);
    calc {
      Scan(s, prevWord);
    ==
      [Price(p)] + Scan(a[n..] + r, true);
    ==
      [Price(p)] + (x + y);
    == { SeqAssoc([Price(p)], x, y); }
      ([Price(p)] + x) + y;
    ==
      Scan(a, prevWord) + y;
    }
  }

  /** The step of `ScanSplit` where `a` starts with an ordinary character and goes on. */
  lemma ScanSplitPlainStep(a: string, r: string, prevWord: bool)
    requires |a| > 1 && PriceAt(a, prevWord) == None && PriceAt(a + r, prevWord) == None
    requires Scan(a[1..] + r, IsWordChar(a[0])) == Scan(a[1..], IsWordChar(a[0])) + Scan(r, false)
    ensures Scan(a + r, prevWord) == Scan(a, prevWord) + Scan(r, false)
  {
    var s := a + r;
    var c := a[0];
    var w := IsWordChar(c);
    assert s[0] == c;
    assert s[1..] == a[1..] + r;
    ScanPlainUnfold(s, prevWord);
    ScanPlainUnfold(a, prevWord);
    var x := Scan(a[1..], w);
    var y := Scan(r, false);
    calc {
      Scan(s, prevWord);
    ==
      [Plain(c)] + Scan(a[1..] + r, w);
    ==
      [Plain(c)] + (x + y);
    == { SeqAssoc([Plain(c)], x, y); }
      ([Plain(c)] + x) + y;
    ==
      Scan(a, prevWord) + y;
    }
  }

  /** The step of `ScanSplit` where `a` is its one ordinary last character. */
  lemma ScanSplitLastStep(a: string, r: string, prevWord: bool)
    requires |a| == 1 && !IsWordChar(a[0]) && PriceAt(a, prevWord) == None && PriceAt(a + r, prevWord) == None
    ensures Scan(a + r, prevWord) == Scan(a, prevWord) + Scan(r, false)
  {
    var s := a + r;
    assert s[0] == a[0];
    assert s[1..] == r;
    assert a[1..] == [];
    ScanPlainUnfold(s, prevWord);
    ScanPlainUnfold(a, prevWord);
  }

  /** A price token at the very start, followed by a non-word character or nothing, is matched whole. */
  lemma ScanPriceFirst(t: string, b: string)
    requires IsPriceToken(t)
    requires b == [] || !IsWordChar(b[0])
    ensures Scan(t + b, false) == [Price(t)] + Scan(b, true)
  {
    var u := t + b;
    assert u[..|t|] == t && u[|t|..] == b;
    if |t| < |u| {
      assert u[|t|] == b[0];
    }
    PriceAtIff(u, false, |t|);
    ScanPriceUnfold(u, false, |t|);
  }

  /** The scan finds a price token with no word character on either side as one price piece. */
  lemma ScanAroundPrice(a: string, t: string, b: string)
    requires IsPriceToken(t)
    requires a == [] || !IsWordChar(a[|a| - 1])
    requires b == [] || !IsWordChar(b[0])
    ensures Scan(a + t + b, false) == Scan(a, false) + ([Price(t)] + Scan(b, true))
  {
    var u := t + b;
    assert a + t + b == a + u;
    ScanPriceFirst(t, b);
    if a == [] {
      assert a + u == u;
      assert Scan(a, false) == [];
    } else {
      assert u[0] == t[0] && u[1] == t[1] && u[2] == t[2];
      assert Text.IsAsciiDigit(t[0]) && Text.IsAsciiDigit(t[1]) && Text.IsAsciiDigit(t[2]);
      ScanSplit(a, u, false);
    }
  }

  /** A price right after a point is bolded too: "x.456.78" shows "456.78" in bold. */
  lemma PriceAfterPointIsBolded()
    ensures Text.Contains(FormatPriceValues("x.456.78"), Bold("456.78"))
  {
    var a, t, b := "x.", "456.78", "";
    assert a + t + b == "x.456.78";
    Text.ContainsIsNoLonger(a + t + b, Bold(t));
    PriceEndsUpBold(a, t, b);
  }

  /** Rendering distributes over concatenation of pieces. */
  lemma {:induction false} RenderAppend(p: seq<Piece>, q: seq<Piece>, original: string)
    ensures Render(p + q, original) == Render(p, original) + Render(q, original)
    decreases |p|
  {
    if p == [] {
      assert p + q == q;
    } else {
      assert (p + q)[0] == p[0] && (p + q)[1..] == p[1..] + q;
      RenderAppend(p[1..], q, original);
    }
  }

  /**
   * A price token standing between a character that is neither a word
   * character nor a point (or the start) and a non-word character (or the
   * end) is bolded, unless its bold form already occurs in the text.
   */
  lemma PriceIsBolded(a: string, t: string, b: string)
    requires IsPriceToken(t)
    requires a == [] || !IsWordChar(a[|a| - 1])
    requires b == [] || !IsWordChar(b[0])
    ensures FormatPriceValues(a + t + b) ==
              Render(Scan(a, false), a + t + b)
              + (if Text.Contains(a + t + b, Bold(t)) then t else Bold(t))
              + Render(Scan(b, true), a + t + b)
  {
    var text := a + t + b;
    ScanAroundPrice(a, t, b);
    FormatIsRender(text);
    RenderAroundPrice(Scan(a, false), t, Scan(b, true), text);
  }

  /** `format_price_values` prints the scan of the text. */
  lemma FormatIsRender(text: string)
    ensures FormatPriceValues(text) == Render(Scan(text, false), text)
  {
  }

  /** Rendering around one price piece. */
  lemma RenderAroundPrice(head: seq<Piece>, t: string, rest: seq<Piece>, original: string)
    ensures Render(head + ([Price(t)] + rest), original) ==
              Render(head, original)
              + (if Text.Contains(original, Bold(t)) then t else Bold(t))
              + Render(rest, original)
  {
    var x := Render(head, original);
    var m := RenderPiece(Price(t), original);
    var y := Render(rest, original);
    assert Render([Price(t)], original) == m + [];
    calc {
      Render(head + ([Price(t)] + rest), original);
    == { RenderAppend(head, [Price(t)] + rest, original); }
      x + Render([Price(t)] + rest, original);
    == { RenderAppend([Price(t)], rest, original); }
      x + ((m + []) + y);
    == { assert m + [] == m; }
      x + (m + y);
    ==
      x + m + y;
    }
  }

  /** Such a price token not yet bold anywhere in the text is bold in the formatted text. */
  lemma PriceEndsUpBold(a: string, t: string, b: string)
    requires IsPriceToken(t)
    requires a == [] || !IsWordChar(a[|a| - 1])
    requires b == [] || !IsWordChar(b[0])
    requires !Text.Contains(a + t + b, Bold(t))
    ensures Text.Contains(FormatPriceValues(a + t + b), Bold(t))
  {
    var text := a + t + b;
    PriceIsBolded(a, t, b);
    var x := Render(Scan(a, false), text);
    var y := Render(Scan(b, true), text);
    assert FormatPriceValues(text) == x + Bold(t) + y;
    Text.ContainsMiddle(x, Bold(t), y);
  }

  // ---------------------------------------------------------------------------
  // Trimming
  // ---------------------------------------------------------------------------

  /** Python's `s[:n]`: a negative `n` counts from the end. */
  function PyPrefix(s: string, n: int): (r: string)
    ensures r <= s
    ensures n >= 0 ==> |r| == if n <= |s| then n else |s|
    ensures n < 0 ==> |r| == if |s| + n >= 0 then |s| + n else 0
  {
    if n >= 0 then (if n <= |s| then s[..n] else s)
    else if |s| + n >= 0 then s[..|s| + n] else []
  }

  /** Python's `str.count`: non-overlapping occurrences, scanning left to right. */
  function Count(s: string, p: string): nat
    requires p != []
    decreases |s|
  {
    if |s| < |p| then 0
    else if p <= s then 1 + Count(s[|p|..], p)
    else Count(s[1..], p)
  }

  /** No occurrence straddles the seam when `u`'s first character can only start `p`. */
  lemma {:induction false} CountAppend(t: string, u: string, p: string)
    requires p != [] && u != []
    requires forall j :: 1 <= j < |p| ==> p[j] != u[0]
    ensures Count(t + u, p) == Count(t, p) + Count(u, p)
    decreases |t|
  {
    if 0 < |t| < |p| {
      // an occurrence starting in `t` would have to match `u[0]` at index |t|
      assert (t + u)[|t|] == u[0] && p[|t|] != u[0];
    }
    if t == [] {
      assert t + u == u;
    } else if |t + u| < |p| {
    } else if p <= t + u {
      if |p| <= |t| {
        assert p <= t;
        assert (t + u)[|p|..] == t[|p|..] + u;
        CountAppend(t[|p|..], u, p);
      }
    } else {
      assert (t + u)[1..] == t[1..] + u;
      CountAppend(t[1..], u, p);
      if |t| >= |p| {
        assert !(p <= t);
      }
    }
  }

  function OpenTag(tag: string): string { "<" + tag + ">" }
  function CloseTag(tag: string): string { "</" + tag + ">" }

  /** One round of the closing loop: append the closing tag when the counts differ. */
  function CloseIfUnbalanced(t: string, tag: string): string {
    if Count(t, OpenTag(tag)) != Count(t, CloseTag(tag)) then t + CloseTag(tag) else t
  }

  function CloseAll(t: string, tags: seq<string>): string
    decreases |tags|
  {
    if tags == [] then t else CloseAll(CloseIfUnbalanced(t, tags[0]), tags[1..])
  }

  /** What `safe_trim_html` returns. */
  function SafeTrimmed(message: string, maxLen: int): string {
    if |message| <= maxLen then message
    else CloseAll(PyPrefix(message, maxLen), ["b", "i"]) + "..."
  }

  /** `safe_trim_html`: trims, closes unbalanced `<b>`/`<i>`, and marks the cut with "...". */
  method SafeTrimHtml(message: string, maxLen: int) returns (r: string)
    ensures r == SafeTrimmed(message, maxLen)
  {
    if |message| <= maxLen {
      return message;
    }
    var trimmed := PyPrefix(message, maxLen);
    var tags := ["b", "i"];
    for k := 0 to |tags|
      invariant CloseAll(trimmed, tags[k..]) == CloseAll(PyPrefix(message, maxLen), tags)
    {
      assert tags[k..][0] == tags[k] && tags[k..][1..] == tags[k + 1..];
      var tag := tags[k];
      var opening := "<" + tag + ">";
      var closing := "</" + tag + ">";
      if Count(trimmed, opening) != Count(trimmed, closing) {
        trimmed := trimmed + closing;
      }
    }
    r := trimmed + "...";
  }

  /** Appending "</b>" adds no "<i>" and no "</i>". */
  lemma ClosingBoldHasNoItalicTag()
    ensures Count("</b>", "<i>") == 0 && Count("</b>", "</i>") == 0
  {
    assert "<i>"[1] != "</b>"[1];
    assert "</b>"[1..] == "/b>" && "/b>"[1..] == "b>";
    assert "<i>"[0] != "/b>"[0];
    assert "</i>"[2] != "</b>"[2];
  }

  /**
   * A long message keeps its prefix, gains "</b>" exactly when the prefix's
   * "<b>" and "</b>" counts differ and "</i>" likewise, and ends with "...".
   */
  lemma SafeTrimmedShape(message: string, maxLen: int)
    ensures |message| <= maxLen ==> SafeTrimmed(message, maxLen) == message
    ensures |message| > maxLen ==>
              var p := PyPrefix(message, maxLen);
              SafeTrimmed(message, maxLen) ==
                p
                + (if Count(p, "<b>") != Count(p, "</b>") then "</b>" else "")
                + (if Count(p, "<i>") != Count(p, "</i>") then "</i>" else "")
                + "..."
    ensures |SafeTrimmed(message, maxLen)| <= |message| + 11
    ensures maxLen >= 0 ==> |SafeTrimmed(message, maxLen)| <= maxLen + 11
  {
    if |message| > maxLen {
      var p := PyPrefix(message, maxLen);
      assert OpenTag("b") == "<b>" && CloseTag("b") == "</b>";
      assert OpenTag("i") == "<i>" && CloseTag("i") == "</i>";
      var pb := CloseIfUnbalanced(p, "b");
      if pb != p {
        CountAppend(p, "</b>", "<i>");
        CountAppend(p, "</b>", "</i>");
        ClosingBoldHasNoItalicTag();
      }
      assert ["b", "i"][1..] == ["i"];
    }
  }

  // ---------------------------------------------------------------------------
  // The report
  // ---------------------------------------------------------------------------

  /** The date and time strings printed in a report (the clock is an input). */
  datatype Stamp = Stamp(dateStr: string, timeLocal: string, timeUtc: string)

  /** The fixed text of the fallback for an empty summary. */
  function EmptySummaryReport(sessionName: string): string {
    "<b>" + sessionName + " SESSION</b>\n\nNo valid summary generated."
  }

  const ReportHeader := "<b>SENTINELx XAU/USD REPORT</b>"

  /** The report before trimming. */
  function Report(summary: string, quote: string, sessionName: string, window: string, stamp: Stamp, tz: string): string {
    ReportHeader + ReportBody(summary, quote, sessionName, window, stamp, tz)
  }

  function ReportBody(summary: string, quote: string, sessionName: string, window: string, stamp: Stamp, tz: string): string {
    "\n\n" + summary + "\n\n" + quote + "\n\n"
    + "<b>Date:</b> " + stamp.dateStr + "\n"
    + "<b>Session:</b> " + sessionName + " (" + window + ")\n"
    + "<b>Time:</b> " + stamp.timeLocal + " " + tz + " | " + stamp.timeUtc + "\n"
  }

  /**
   * `format_spectral_summary`. The header-removing clean-up and the random quote
   * choice are inputs: `clean` stands for the clean-up, `quoteIndex` for the choice.
   */
  function FormatSpectralSummary(summary: string, sessionName: string, clean: (string, string) -> string,
                                 quoteIndex: nat, stamp: Stamp, tz: string): string
    requires quoteIndex < |SniperQuotes|
  {
    if summary == "" || Text.Strip(summary) == "" then EmptySummaryReport(sessionName)
    else
      var body := FormatPriceValues(RemoveEmojis(clean(summary, sessionName)));
      var quote := "<i>" + SniperQuotes[quoteIndex] + "</i>";
      SafeTrimmed(Report(body, quote, sessionName, Config.SessionWindow(sessionName), stamp, tz), MaxTelegramMessageLength)
  }

  /** Trimming keeps the report's header line. */
  lemma TrimKeepsHeader(report: string)
    requires ReportHeader <= report
    ensures ReportHeader <= SafeTrimmed(report, MaxTelegramMessageLength)
    ensures |SafeTrimmed(report, MaxTelegramMessageLength)| <= MaxTelegramMessageLength + 11
  {
    SafeTrimmedShape(report, MaxTelegramMessageLength);
    if |report| > MaxTelegramMessageLength {
      var p := PyPrefix(report, MaxTelegramMessageLength);
      assert ReportHeader <= p;
    }
  }

  /** A blank summary gives the fixed fallback text. */
  lemma BlankSummaryFallback(summary: string, sessionName: string, clean: (string, string) -> string,
                             quoteIndex: nat, stamp: Stamp, tz: string)
    requires quoteIndex < |SniperQuotes|
    ensures Text.IsBlank(summary) ==>
              FormatSpectralSummary(summary, sessionName, clean, quoteIndex, stamp, tz)
              == "<b>" + sessionName + " SESSION</b>\n\nNo valid summary generated."
  {
    Text.StripEmptyIffBlank(summary);
  }

  /**
   * Any other summary gives a report that starts with the header, is at most
   * 4096 + 11 characters long, and is the untrimmed report whenever that fits.
   */
  lemma SpectralSummaryShape(summary: string, sessionName: string, clean: (string, string) -> string,
                             quoteIndex: nat, stamp: Stamp, tz: string)
    requires quoteIndex < |SniperQuotes|
    requires !Text.IsBlank(summary)
    ensures var report := Report(FormatPriceValues(RemoveEmojis(clean(summary, sessionName))),
                                 "<i>" + SniperQuotes[quoteIndex] + "</i>", sessionName,
                                 Config.SessionWindow(sessionName), stamp, tz);
            var r := FormatSpectralSummary(summary, sessionName, clean, quoteIndex, stamp, tz);
            && ReportHeader <= r
            && |r| <= MaxTelegramMessageLength + 11
            && (|report| <= MaxTelegramMessageLength ==> r == report)
  {
    Text.StripEmptyIffBlank(summary);
    var report := Report(FormatPriceValues(RemoveEmojis(clean(summary, sessionName))),
                         "<i>" + SniperQuotes[quoteIndex] + "</i>", sessionName,
                         Config.SessionWindow(sessionName), stamp, tz);
    assert FormatSpectralSummary(summary, sessionName, clean, quoteIndex, stamp, tz)
        == SafeTrimmed(report, MaxTelegramMessageLength);
    TrimKeepsHeader(report);
  }

  /** An unknown session name prints the window as "Time Window N/A". */
  lemma UnknownSessionWindow(sessionName: string)
    requires forall i :: 0 <= i < |Config.SessionWindows| ==> Config.SessionWindows[i].0 != sessionName
    ensures Config.SessionWindow(sessionName) == "Time Window N/A"
  {
  }
}
