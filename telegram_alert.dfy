/**
 * Outgoing Telegram messages: the length guard, the HTML sanitiser and the
 * greedy word packer that cuts a message into chunks Telegram accepts.
 * Posting a chunk is an oracle that answers with a status code; a 400 in HTML
 * mode gets one plain-text retry, and from then on every chunk is sent as
 * plain text (`PostChunk`, `SendFrom`).
 */
module TelegramAlert {
  import opened Wrappers
  import Text

  const MaxMessageLength: int := 4096
  /** Safety margin kept free in every chunk. */
  const SplitBuffer: int := 50

  // ---------------------------------------------------------------------------
  // Words: Python's `str.split(" ")` and `" ".join`
  // ---------------------------------------------------------------------------

  /**
   * Splits on every single space, as `str.split(" ")` does: runs of spaces
   * give empty words, and the empty string gives one empty word.
   */
  function Split(s: string): (r: seq<string>)
    ensures |r| >= 1
    ensures forall i :: 0 <= i < |r| ==> ' ' !in r[i]
    decreases |s|
  {
    if s == [] then [""]
    else if s[0] == ' ' then [""] + Split(s[1..])
    else
      var rest := Split(s[1..]);
      [[s[0]] + rest[0]] + rest[1..]
  }

  /** Joins words with single spaces, as `" ".join` does. */
  function JoinSpace(words: seq<string>): string
    decreases |words|
  {
    if words == [] then ""
    else if |words| == 1 then words[0]
    else words[0] + " " + JoinSpace(words[1..])
  }

  /** Joining the pieces of a split gives back the text. */
  lemma {:induction false} JoinSplit(s: string)
    ensures JoinSpace(Split(s)) == s
    decreases |s|
  {
    if s != [] {
      JoinSplit(s[1..]);
      var rest := Split(s[1..]);
      if s[0] == ' ' {
        assert Split(s) == [""] + rest;
        assert s == [' '] + s[1..];
      } else if |rest| == 1 {
        assert s == [s[0]] + s[1..];
      } else {
        assert Split(s)[1..] == rest[1..];
        assert s == [s[0]] + s[1..];
      }
    }
  }

  /** Splitting a join of space-free words gives the words back. */
  lemma {:induction false} SplitJoin(words: seq<string>)
    requires |words| >= 1
    requires forall i :: 0 <= i < |words| ==> ' ' !in words[i]
    ensures Split(JoinSpace(words)) == words
    decreases |words|, |words[0]|
  {
    var w := words[0];
    if w == [] {
      if |words| > 1 {
        SplitJoin(words[1..]);
        assert JoinSpace(words) == [' '] + JoinSpace(words[1..]);
      }
    } else {
      var words' := [w[1..]] + words[1..];
      SplitJoin(words');
      if |words| == 1 {
        assert JoinSpace(words) == [w[0]] + JoinSpace(words');
      } else {
        assert words'[1..] == words[1..];
        assert JoinSpace(words) == [w[0]] + JoinSpace(words');
      }
      assert w == [w[0]] + w[1..];
      assert words == [[w[0]] + words'[0]] + words'[1..];
    }
  }

  /** The first word of a text. */
  function FirstWord(s: string): (w: string)
    ensures w <= s && ' ' !in w
  {
    PrefixOfSplit(s);
    Split(s)[0]
  }

  lemma {:induction false} PrefixOfSplit(s: string)
    ensures Split(s)[0] <= s
    decreases |s|
  {
    if s != [] && s[0] != ' ' {
      PrefixOfSplit(s[1..]);
    }
  }

  lemma {:induction false} FirstWordOfLonger(a: string, b: string)
    ensures FirstWord(a + " " + b) == FirstWord(a)
    decreases |a|
  {
    if a == [] {
      assert (a + " " + b)[1..] == b;
    } else {
      FirstWordOfLonger(a[1..], b);
      assert (a + " " + b)[1..] == a[1..] + " " + b;
    }
  }

  // ---------------------------------------------------------------------------
  // Greedy packing (`safe_html_split`)
  // ---------------------------------------------------------------------------

  /** Appends a word to the chunk being built, with a space unless it is empty. */
  function Extend(current: string, word: string): (r: string)
    ensures |r| <= |current| + |word| + 1
    ensures current == "" ==> r == word
    ensures current != "" ==> r == current + " " + word
  {
    (if current != "" then current + " " else "") + word
  }

  /**
   * The chunks the packing loop emits for the remaining `words`, given the
   * chunk `current` being built.
   */
  function Pack(words: seq<string>, maxLen: int, current: string): seq<string>
    decreases |words|
  {
    if words == [] then (if current != "" then [current] else [])
    else if |current| + |words[0]| + 1 > maxLen then [current] + Pack(words[1..], maxLen, words[0])
    else Pack(words[1..], maxLen, Extend(current, words[0]))
  }

  /** The chunks `safe_html_split(text, maxLen)` returns. */
  function SafeSplit(text: string, maxLen: int): seq<string> {
    Pack(Split(text), maxLen, "")
  }

  /** `safe_html_split`: greedily packs space-separated words into chunks. */
  method SafeHtmlSplit(text: string, maxLen: int) returns (chunks: seq<string>)
    ensures chunks == SafeSplit(text, maxLen)
  {
    var words := Split(text);
    chunks := [];
    var current := "";
    for i := 0 to |words|
      invariant chunks + Pack(words[i..], maxLen, current) == Pack(words, maxLen, "")
    {
      var word := words[i];
      assert words[i..][0] == word && words[i..][1..] == words[i + 1..];
      if |current| + |word| + 1 > maxLen {
        chunks := chunks + [current];
        current := word;
      } else {
        current := current + (if current != "" then " " else "") + word;
      }
    }
    if current != "" {
      chunks := chunks + [current];
    }
  }

  /** An empty message gives no chunk at all, once a chunk may hold one character. */
  lemma EmptyTextNoChunks(maxLen: int)
    ensures maxLen >= 1 ==> SafeSplit("", maxLen) == []
    ensures maxLen < 1 ==> SafeSplit("", maxLen) == [""]
  {
    assert Split("") == [""];
    assert [""][1..] == [];
  }

  lemma {:induction false} PackNonEmpty(words: seq<string>, maxLen: int, current: string)
    requires current != ""
    ensures Pack(words, maxLen, current) != []
    ensures FirstWord(Pack(words, maxLen, current)[0]) == FirstWord(current)
    decreases |words|
  {
    if words != [] && |current| + |words[0]| + 1 <= maxLen {
      PackNonEmpty(words[1..], maxLen, Extend(current, words[0]));
      FirstWordOfLonger(current, words[0]);
    }
  }

  lemma JoinCons(a: string, rest: seq<string>)
    requires rest != []
    ensures JoinSpace([a] + rest) == a + " " + JoinSpace(rest)
  {
    assert ([a] + rest)[1..] == rest;
  }

  lemma {:induction false} PackJoin(words: seq<string>, maxLen: int, current: string)
    requires forall i :: 0 <= i < |words| ==> words[i] != "" && |words[i]| < maxLen
    ensures current == "" ==> JoinSpace(Pack(words, maxLen, current)) == JoinSpace(words)
    ensures current != "" ==> JoinSpace(Pack(words, maxLen, current)) == JoinSpace([current] + words)
    decreases |words|
  {
    if words == [] {
      if current != "" {
        assert [current] + words == [current];
      }
    } else {
      var w := words[0];
      var rest := words[1..];
      assert words == [w] + rest;
      if |current| + |w| + 1 > maxLen {
        PackJoin(rest, maxLen, w);
        PackNonEmpty(rest, maxLen, w);
        JoinCons(current, Pack(rest, maxLen, w));
        JoinCons(current, words);
      } else {
        var next := Extend(current, w);
        PackJoin(rest, maxLen, next);
        if current != "" {
          if rest == [] {
            assert [current] + words == [current, w];
          } else {
            JoinCons(next, rest);
            JoinCons(w, rest);
            JoinCons(current, words);
          }
        }
      }
    }
  }

  /**
   * When every word is non-empty and shorter than the limit, joining the
   * chunks with single spaces gives back the text exactly.
   */
  lemma SafeSplitRoundTrip(text: string, maxLen: int)
    requires text != ""
    requires forall w :: w in Split(text) ==> w != "" && |w| < maxLen
    ensures JoinSpace(SafeSplit(text, maxLen)) == text
  {
    PackJoin(Split(text), maxLen, "");
    JoinSplit(text);
  }

  lemma {:induction false} PackChunkBound(words: seq<string>, maxLen: int, current: string, all: seq<string>)
    requires forall i :: 0 <= i < |words| ==> words[i] in all
    requires |current| <= maxLen || current in all
    ensures forall c :: c in Pack(words, maxLen, current) ==> |c| <= maxLen || c in all
    decreases |words|
  {
    if words != [] {
      if |current| + |words[0]| + 1 > maxLen {
        PackChunkBound(words[1..], maxLen, words[0], all);
      } else {
        PackChunkBound(words[1..], maxLen, Extend(current, words[0]), all);
      }
    }
  }

  /** A chunk longer than the limit is one single word of the text, holding no space. */
  lemma LongChunkIsOneWord(text: string, maxLen: int)
    requires maxLen >= 0
    ensures forall c :: c in SafeSplit(text, maxLen) && |c| > maxLen ==> c in Split(text) && ' ' !in c
  {
    var words := Split(text);
    PackChunkBound(words, maxLen, "", words);
  }

  /** Every chunk but the last is followed by a chunk whose first word would not fit after it. */
  predicate ClosedOnOverflow(r: seq<string>, maxLen: int) {
    forall i :: 0 <= i < |r| - 1 ==> |r[i]| + |FirstWord(r[i + 1])| + 1 > maxLen
  }

  lemma {:induction false} PackClosesOnOverflow(words: seq<string>, maxLen: int, current: string)
    requires forall i :: 0 <= i < |words| ==> ' ' !in words[i]
    ensures ClosedOnOverflow(Pack(words, maxLen, current), maxLen)
    decreases |words|
  {
    if words != [] {
      var w := words[0];
      if |current| + |w| + 1 > maxLen {
        PackClosesOnOverflow(words[1..], maxLen, w);
        var tail := Pack(words[1..], maxLen, w);
        var r := Pack(words, maxLen, current);
        assert r == [current] + tail;
        if w != "" {
          // the next chunk starts with `w`, which did not fit
          PackNonEmpty(words[1..], maxLen, w);
          SplitOfWord(w);
          assert FirstWord(w) == w;
        }
        forall i | 0 <= i < |r| - 1
          ensures |r[i]| + |FirstWord(r[i + 1])| + 1 > maxLen
        {
          if i > 0 {
            assert r[i] == tail[i - 1] && r[i + 1] == tail[i];
          } else if w != "" {
            assert r[1] == tail[0];
            assert FirstWord(r[1]) == w;
          }
        }
      } else {
        PackClosesOnOverflow(words[1..], maxLen, Extend(current, w));
        assert Pack(words, maxLen, current) == Pack(words[1..], maxLen, Extend(current, w));
      }
    }
  }

  /**
   * A chunk is closed only when the next chunk's first word, plus a space,
   * does not fit after it.
   */
  lemma ChunkClosedOnlyOnOverflow(text: string, maxLen: int)
    ensures ClosedOnOverflow(SafeSplit(text, maxLen), maxLen)
  {
    PackClosesOnOverflow(Split(text), maxLen, "");
  }

  /** All words of a list of chunks, in order. */
  function WordsOf(chunks: seq<string>): seq<string>
    decreases |chunks|
  {
    if chunks == [] then [] else Split(chunks[0]) + WordsOf(chunks[1..])
  }

  /** The non-empty words, in order. */
  function NonEmpty(words: seq<string>): (r: seq<string>)
    ensures forall w :: w in r ==> w in words && w != ""
    decreases |words|
  {
    if words == [] then []
    else (if words[0] == "" then [] else [words[0]]) + NonEmpty(words[1..])
  }

  lemma {:induction false} NonEmptyAppend(a: seq<string>, b: seq<string>)
    ensures NonEmpty(a + b) == NonEmpty(a) + NonEmpty(b)
    decreases |a|
  {
    if a != [] {
      NonEmptyAppend(a[1..], b);
      assert (a + b)[1..] == a[1..] + b;
    } else {
      assert a + b == b;
    }
  }

  lemma {:induction false} SplitAroundSpace(a: string, b: string)
    ensures Split(a + " " + b) == Split(a) + Split(b)
    decreases |a|
  {
    var s := a + " " + b;
    if a == [] {
      assert s[0] == ' ' && s[1..] == b;
    } else {
      assert s[0] == a[0] && s[1..] == a[1..] + " " + b;
      SplitAroundSpace(a[1..], b);
      var x, y := Split(a[1..]), Split(b);
      if a[0] != ' ' {
        assert (x + y)[0] == x[0] && (x + y)[1..] == x[1..] + y;
      }
    }
  }

  /** A space-free word splits to itself. */
  lemma SplitOfWord(w: string)
    requires ' ' !in w
    ensures Split(w) == [w]
  {
    SplitJoin([w]);
  }

  /** The packing step that closes the chunk being built keeps the words. */
  lemma PackCloseStep(words: seq<string>, maxLen: int, current: string)
    requires words != [] && ' ' !in words[0] && |current| + |words[0]| + 1 > maxLen
    requires NonEmpty(WordsOf(Pack(words[1..], maxLen, words[0]))) == NonEmpty(Split(words[0]) + words[1..])
    ensures NonEmpty(WordsOf(Pack(words, maxLen, current))) == NonEmpty(Split(current) + words)
  {
    var w, rest := words[0], words[1..];
    var tail := Pack(rest, maxLen, w);
    assert Pack(words, maxLen, current) == [current] + tail;
    assert ([current] + tail)[1..] == tail;
    assert WordsOf([current] + tail) == Split(current) + WordsOf(tail);
    SplitOfWord(w);
    assert Split(w) + rest == words;
    NonEmptyAppend(Split(current), WordsOf(tail));
    NonEmptyAppend(Split(current), words);
  }

  /** The packing step that extends the chunk being built keeps the words. */
  lemma PackExtendStep(words: seq<string>, maxLen: int, current: string)
    requires words != [] && ' ' !in words[0] && |current| + |words[0]| + 1 <= maxLen
    requires NonEmpty(WordsOf(Pack(words[1..], maxLen, Extend(current, words[0]))))
             == NonEmpty(Split(Extend(current, words[0])) + words[1..])
    ensures NonEmpty(WordsOf(Pack(words, maxLen, current))) == NonEmpty(Split(current) + words)
  {
    var w, rest := words[0], words[1..];
    var next := Extend(current, w);
    assert Pack(words, maxLen, current) == Pack(rest, maxLen, next);
    SplitOfWord(w);
    if current == "" {
      assert Split(next) + rest == words;
      assert Split(current) == [""];
      assert NonEmpty([""]) == [];
      NonEmptyAppend([""], words);
    } else {
      SplitAroundSpace(current, w);
      assert Split(next) + rest == Split(current) + words;
    }
  }

  lemma {:induction false} PackKeepsWords(words: seq<string>, maxLen: int, current: string)
    requires forall i :: 0 <= i < |words| ==> ' ' !in words[i]
    ensures NonEmpty(WordsOf(Pack(words, maxLen, current))) == NonEmpty(Split(current) + words)
    decreases |words|
  {
    if words == [] {
      if current == "" {
        assert Split(current) + words == [""];
      } else {
        assert WordsOf([current]) == Split(current);
      }
    } else if |current| + |words[0]| + 1 > maxLen {
      PackKeepsWords(words[1..], maxLen, words[0]);
      PackCloseStep(words, maxLen, current);
    } else {
      PackKeepsWords(words[1..], maxLen, Extend(current, words[0]));
      PackExtendStep(words, maxLen, current);
    }
  }

  /**
   * Packing keeps the words in their order and loses none but the empty words
   * that runs of spaces produce.
   */
  lemma SafeSplitKeepsWords(text: string, maxLen: int)
    ensures NonEmpty(WordsOf(SafeSplit(text, maxLen))) == NonEmpty(Split(text))
  {
    PackKeepsWords(Split(text), maxLen, "");
    assert Split("") == [""];
    NonEmptyAppend([""], Split(text));
  }

  // ---------------------------------------------------------------------------
  // Entity replacement: Python's `str.replace`
  // ---------------------------------------------------------------------------

  /** Replaces every occurrence of `pat`, scanning left to right without overlaps. */
  function ReplaceAll(s: string, pat: string, rep: string): string
    requires pat != []
    decreases |s|
  {
    if s == [] then []
    else if pat <= s then rep + ReplaceAll(s[|pat|..], pat, rep)
    else [s[0]] + ReplaceAll(s[1..], pat, rep)
  }

  lemma {:induction false} ReplaceAbsentIsIdentity(s: string, pat: string, rep: string)
    requires pat != [] && !Text.Contains(s, pat)
    ensures ReplaceAll(s, pat, rep) == s
    decreases |s|
  {
    if s != [] {
      ReplaceAbsentIsIdentity(s[1..], pat, rep);
      assert s == [s[0]] + s[1..];
    }
  }

  lemma {:induction false} ContainsInSuffix(s: string, p: string, k: nat)
    requires k <= |s| && Text.Contains(s[k..], p)
    ensures Text.Contains(s, p)
    decreases k
  {
    if k > 0 {
      assert s[1..][k - 1..] == s[k..];
      ContainsInSuffix(s[1..], p, k - 1);
    }
  }

  /** A prefix of the output made of characters foreign to `rep` is a prefix of the input. */
  lemma {:induction false} KeptPrefix(s: string, pat: string, rep: string, q: string)
    requires pat != [] && rep != []
    requires forall i :: 0 <= i < |q| ==> q[i] !in rep
    ensures q <= ReplaceAll(s, pat, rep) ==> q <= s
    decreases |s|
  {
    if s != [] && q != [] && !(pat <= s) {
      KeptPrefix(s[1..], pat, rep, q[1..]);
      if q <= ReplaceAll(s, pat, rep) {
        assert q[1..] <= ReplaceAll(s[1..], pat, rep);
      }
    } else if s != [] && q != [] {
      // the output starts with `rep`, whose first character `q` cannot hold
      assert rep[0] in rep;
      assert ReplaceAll(s, pat, rep)[0] == rep[0];
    }
  }

  /** The same, for an output that starts with a kept character. */
  lemma KeptPrefixAfter(c: char, u: string, pat: string, rep: string, q: string)
    requires pat != [] && rep != [] && q != []
    requires forall i :: 0 <= i < |q| ==> q[i] !in rep
    ensures q <= [c] + ReplaceAll(u, pat, rep) ==> q <= [c] + u
  {
    KeptPrefix(u, pat, rep, q[1..]);
    if q <= [c] + ReplaceAll(u, pat, rep) {
      assert q[1..] <= ReplaceAll(u, pat, rep);
    }
  }

  /** An occurrence of `p` cannot start inside a block free of `p[0]`. */
  lemma {:induction false} NoOccurrenceAcross(x: string, rest: string, p: string)
    requires p != [] && p[0] !in x && !Text.Contains(rest, p)
    ensures !Text.Contains(x + rest, p)
    decreases |x|
  {
    if x == [] {
      assert x + rest == rest;
    } else {
      NoOccurrenceAcross(x[1..], rest, p);
      assert (x + rest)[1..] == x[1..] + rest;
    }
  }

  /** When `pat` and `rep` share no character, no occurrence of `pat` survives. */
  lemma {:induction false} ReplaceLeavesNoPattern(s: string, pat: string, rep: string)
    requires pat != [] && rep != []
    requires forall i :: 0 <= i < |pat| ==> pat[i] !in rep
    ensures !Text.Contains(ReplaceAll(s, pat, rep), pat)
    decreases |s|
  {
    if s != [] {
      if pat <= s {
        ReplaceLeavesNoPattern(s[|pat|..], pat, rep);
        NoOccurrenceAcross(rep, ReplaceAll(s[|pat|..], pat, rep), pat);
      } else {
        ReplaceLeavesNoPattern(s[1..], pat, rep);
        var tail := ReplaceAll(s[1..], pat, rep);
        KeptPrefixAfter(s[0], s[1..], pat, rep, pat);
        assert s == [s[0]] + s[1..];
        assert ([s[0]] + tail)[1..] == tail;
      }
    }
  }

  /** Replacing never creates an occurrence of a text free of `rep`'s characters. */
  lemma {:induction false} ReplaceCreatesNoOccurrence(s: string, pat: string, rep: string, q: string)
    requires pat != [] && rep != [] && q != []
    requires forall i :: 0 <= i < |q| ==> q[i] !in rep
    requires !Text.Contains(s, q)
    ensures !Text.Contains(ReplaceAll(s, pat, rep), q)
    decreases |s|
  {
    if s != [] {
      if pat <= s {
        if Text.Contains(s[|pat|..], q) {
          ContainsInSuffix(s, q, |pat|);
        }
        ReplaceCreatesNoOccurrence(s[|pat|..], pat, rep, q);
        NoOccurrenceAcross(rep, ReplaceAll(s[|pat|..], pat, rep), q);
      } else {
        ReplaceCreatesNoOccurrence(s[1..], pat, rep, q);
        var tail := ReplaceAll(s[1..], pat, rep);
        KeptPrefixAfter(s[0], s[1..], pat, rep, q);
        assert s == [s[0]] + s[1..];
        assert ([s[0]] + tail)[1..] == tail;
      }
    }
  }

  /** The first step of the sanitiser: "&lt;" and "&gt;" become "<" and ">". */
  function Unescape(s: string): string {
    ReplaceAll(ReplaceAll(s, "&lt;", "<"), "&gt;", ">")
  }

  /** After unescaping no "&lt;" or "&gt;" entity is left; text without them is unchanged. */
  lemma UnescapeLeavesNoEntity(s: string)
    ensures !Text.Contains(Unescape(s), "&lt;") && !Text.Contains(Unescape(s), "&gt;")
    ensures !Text.Contains(s, "&lt;") && !Text.Contains(s, "&gt;") ==> Unescape(s) == s
  {
    var once := ReplaceAll(s, "&lt;", "<");
    ReplaceLeavesNoPattern(s, "&lt;", "<");
    ReplaceCreatesNoOccurrence(once, "&gt;", ">", "&lt;");
    ReplaceLeavesNoPattern(once, "&gt;", ">");
    if !Text.Contains(s, "&lt;") && !Text.Contains(s, "&gt;") {
      ReplaceAbsentIsIdentity(s, "&lt;", "<");
      ReplaceAbsentIsIdentity(s, "&gt;", ">");
    }
  }

  // ---------------------------------------------------------------------------
  // Line-break normalisation: `<\s*br\s*/?>`, ignoring case, becomes "<br>"
  // ---------------------------------------------------------------------------

  /** Length of the run of whitespace (Python's `\s`) at the start of `s`. */
  function SpaceRun(s: string): (n: nat)
    ensures n <= |s|
    ensures forall i :: 0 <= i < n ==> Text.IsPySpace(s[i])
    ensures n < |s| ==> !Text.IsPySpace(s[n])
    decreases |s|
  {
    if s != [] && Text.IsPySpace(s[0]) then 1 + SpaceRun(s[1..]) else 0
  }

  predicate AllSpace(s: string) {
    forall i :: 0 <= i < |s| ==> Text.IsPySpace(s[i])
  }

  /** The text between "<" and ">" of a line-break tag: spaces, "br" in any case, spaces, an optional "/". */
  predicate IsBrBody(m: string) {
    var k := SpaceRun(m);
    && k + 2 <= |m|
    && Text.LowerChar(m[k]) == 'b'
    && Text.LowerChar(m[k + 1]) == 'r'
    && var t := m[k + 2..];
       AllSpace(t) || (t != [] && t[|t| - 1] == '/' && AllSpace(t[..|t| - 1]))
  }

  /** `x` is, as a whole, a line-break tag in any of its spellings. */
  predicate IsBrTag(x: string) {
    |x| >= 2 && x[0] == '<' && x[|x| - 1] == '>' && IsBrBody(x[1..|x| - 1])
  }

  /** A line-break tag holds "<" only first and ">" only last. */
  lemma BrTagShape(x: string)
    requires IsBrTag(x)
    ensures |x| >= 4
    ensures forall i :: 0 < i < |x| ==> x[i] != '<'
    ensures forall i :: 0 <= i < |x| - 1 ==> x[i] != '>'
    ensures exists i :: 0 <= i < |x| && (x[i] == 'b' || x[i] == 'B')
  {
    var m := x[1..|x| - 1];
    var k := SpaceRun(m);
    assert Text.LowerChar(m[k]) == 'b';
    assert x[k + 1] == m[k];
    forall i | 0 <= i < |m|
      ensures m[i] != '<' && m[i] != '>'
    {
      if i >= k + 2 {
        assert m[i] == m[k + 2..][i - k - 2];
      }
    }
    forall i | 0 < i < |x| - 1
      ensures x[i] != '<' && x[i] != '>'
    {
      assert x[i] == m[i - 1];
    }
  }

  /** Searches the lengths `n` upwards for a prefix that is a line-break tag. */
  function BrMatch(s: string, n: nat): (r: Option<nat>)
    requires n <= |s| + 1
    ensures r.Some? ==> n <= r.value <= |s| && IsBrTag(s[..r.value])
    ensures r.None? ==> forall m :: n <= m <= |s| ==> !IsBrTag(s[..m])
    decreases |s| + 1 - n
  {
    if n > |s| then None
    else if IsBrTag(s[..n]) then Some(n)
    else BrMatch(s, n + 1)
  }

  /** The length of the line-break tag at the start of `s`, if there is one. */
  function BrAt(s: string): (r: Option<nat>)
    ensures r.Some? ==> 4 <= r.value <= |s| && IsBrTag(s[..r.value])
    ensures r.None? ==> forall m :: 0 <= m <= |s| ==> !IsBrTag(s[..m])
  {
    var r := BrMatch(s, 0);
    if r.Some? then BrTagShape(s[..r.value]); r else r
  }

  /** At most one prefix of a text is a line-break tag. */
  lemma BrTagUnique(s: string, m: nat, n: nat)
    requires m <= n <= |s| && IsBrTag(s[..m]) && IsBrTag(s[..n])
    ensures m == n
  {
    BrTagShape(s[..m]);
    BrTagShape(s[..n]);
  }

  /** Whether a tag starts a text depends only on the tag's own characters. */
  lemma BrAtByPrefix(u: string, n: nat)
    requires n <= |u| && IsBrTag(u[..n])
    ensures BrAt(u) == Some(n)
  {
    var r := BrAt(u);
    if r.value <= n {
      BrTagUnique(u, r.value, n);
    } else {
      BrTagUnique(u, n, r.value);
    }
  }

  /** Every spelling of a line-break tag becomes "<br>"; everything else is kept. */
  function NormalizeBr(s: string): string
    decreases |s|
  {
    if s == [] then []
    else match BrAt(s)
      case Some(n) => "<br>" + NormalizeBr(s[n..])
      case None => [s[0]] + NormalizeBr(s[1..])
  }

  lemma CanonicalBr(t: string)
    ensures BrAt("<br>" + t) == Some(4)
  {
    var x := "<br>" + t;
    assert x[..4][1..3] == "br";
    assert SpaceRun("br") == 0;
    BrAtByPrefix(x, 4);
  }

  /** Where no line break starts, the pass copies the character. */
  lemma NormalizeBrPlainStep(s: string)
    requires s != [] && BrAt(s) == None
    ensures NormalizeBr(s) == [s[0]] + NormalizeBr(s[1..])
  {
  }

  /** Where a line break starts, the output starts with the canonical one. */
  lemma NormalizeBrTagStep(s: string, n: nat)
    requires s != [] && BrAt(s) == Some(n)
    ensures NormalizeBr(s) == "<br>" + NormalizeBr(s[n..]) && NormalizeBr(s)[0] == '<'
  {
  }

  /** A prefix of the output without "<" is a prefix of the input. */
  lemma {:induction false} NormalizeKeptPrefix(s: string, q: string)
    requires '<' !in q
    ensures q <= NormalizeBr(s) ==> q <= s
    decreases |s|
  {
    if s != [] && q != [] {
      match BrAt(s)
      case Some(n) =>
        NormalizeBrTagStep(s, n);
      case None =>
        NormalizeBrPlainStep(s);
        NormalizeKeptPrefix(s[1..], q[1..]);
        var rest := NormalizeBr(s[1..]);
        if q <= [s[0]] + rest {
          assert q[0] == s[0];
          assert q[1..] <= rest;
        }
    }
  }

  /** A character kept by the first pass starts no tag in the second. */
  lemma KeptCharStartsNoBr(s: string)
    requires s != []
    ensures BrAt(s) == None ==> BrAt([s[0]] + NormalizeBr(s[1..])) == None
  {
    var t := [s[0]] + NormalizeBr(s[1..]);
    var r := BrAt(t);
    if r.Some? {
      var n := r.value;
      BrTagShape(t[..n]);
      var q := t[1..n];
      assert forall i :: 0 <= i < |q| ==> q[i] == t[..n][i + 1];
      NormalizeKeptPrefix(s[1..], q);
      assert q <= NormalizeBr(s[1..]);
      assert s[..n] == t[..n];
      BrAtByPrefix(s, n);
    }
  }

  /** Normalising twice is normalising once. */
  lemma {:induction false} NormalizeBrIdempotent(s: string)
    ensures NormalizeBr(NormalizeBr(s)) == NormalizeBr(s)
    decreases |s|
  {
    if s != [] {
      match BrAt(s)
      case Some(n) =>
        NormalizeBrIdempotent(s[n..]);
        var rest := NormalizeBr(s[n..]);
        CanonicalBr(rest);
        assert ("<br>" + rest)[4..] == rest;
      case None =>
        NormalizeBrIdempotent(s[1..]);
        var rest := NormalizeBr(s[1..]);
        KeptCharStartsNoBr(s);
        assert ([s[0]] + rest)[1..] == rest;
    }
  }

  /** Text without "<" holds no line-break tag and is left alone. */
  lemma {:induction false} NormalizeBrIsIdentityWithoutLessThan(s: string)
    requires '<' !in s
    ensures NormalizeBr(s) == s
    decreases |s|
  {
    if s != [] {
      assert forall c :: c in s[1..] ==> c in s;
      NormalizeBrIsIdentityWithoutLessThan(s[1..]);
      assert s == [s[0]] + s[1..];
    }
  }

  /** Text without a "b" or "B" holds no line-break tag and is left alone. */
  lemma {:induction false} NormalizeBrWithoutB(s: string)
    requires 'b' !in s && 'B' !in s
    ensures NormalizeBr(s) == s
    decreases |s|
  {
    if s != [] {
      if BrAt(s).Some? {
        BrTagShape(s[..BrAt(s).value]);
      }
      NormalizeBrWithoutB(s[1..]);
      assert s == [s[0]] + s[1..];
    }
  }

  // ---------------------------------------------------------------------------
  // Tag allow-list: `</?([a-zA-Z0-9]+)(\s[^>]*)?>` is kept only for allowed names
  // ---------------------------------------------------------------------------

  /** The tags Telegram's HTML mode accepts. */
  const AllowedTags: set<string> :=
    {"b", "strong", "i", "em", "u", "ins", "s", "strike", "del", "a", "code", "pre", "span", "br"}

  predicate IsAsciiAlnum(c: char) {
    Text.IsAsciiLetter(c) || Text.IsAsciiDigit(c)
  }

  /** Length of the run of ASCII letters and digits at the start of `s`. */
  function AlnumRun(s: string): (n: nat)
    ensures n <= |s|
    ensures forall i :: 0 <= i < n ==> IsAsciiAlnum(s[i])
    ensures n < |s| ==> !IsAsciiAlnum(s[n])
    decreases |s|
  {
    if s != [] && IsAsciiAlnum(s[0]) then 1 + AlnumRun(s[1..]) else 0
  }

  /** The position of the first `c` in `s`. */
  function IndexOf(s: string, c: char): (r: Option<nat>)
    ensures r.Some? ==> r.value < |s| && s[r.value] == c && forall i :: 0 <= i < r.value ==> s[i] != c
    ensures r.None? ==> c !in s
    decreases |s|
  {
    if s == [] then None
    else if s[0] == c then Some(0)
    else
      var r := IndexOf(s[1..], c);
      if r.Some? then Some(r.value + 1)
      else assert s == [s[0]] + s[1..]; None
  }

  /** A tag match: the tag's name and the length of the matched text. */
  datatype TagMatch = TagMatch(name: string, end: nat)

  /**
   * The tag starting `s`, if any: "<", an optional "/", a name of ASCII letters
   * and digits, then either ">" at once or a whitespace character followed by
   * anything up to the first ">".
   */
  function TagAt(s: string): (r: Option<TagMatch>)
    ensures r.Some? ==> 3 <= r.value.end <= |s| && r.value.name != []
    ensures r.Some? ==> s[0] == '<' && s[r.value.end - 1] == '>'
  {
    if s == [] || s[0] != '<' then None
    else
      var j := if 2 <= |s| && s[1] == '/' then 2 else 1;
      var k := j + AlnumRun(s[j..]);
      if k == j then None
      else if k < |s| && s[k] == '>' then Some(TagMatch(s[j..k], k + 1))
      else if k < |s| && Text.IsPySpace(s[k]) then
        match IndexOf(s[k..], '>')
        case Some(g) => Some(TagMatch(s[j..k], k + g + 1))
        case None => None
      else None
  }

  /**
   * `t` is one whole match of `</?([a-zA-Z0-9]+)(\s[^>]*)?>` whose name is
   * `t[j..k]`: "<", then "/" when `j` is 2, the name, then either the closing
   * ">" at once, or a whitespace character and no ">" before the closing one.
   */
  predicate IsTagText(t: string, j: nat, k: nat) {
    && (j == 1 || j == 2) && j < k < |t|
    && t[0] == '<' && (j == 2 ==> t[1] == '/')
    && (forall i :: j <= i < k ==> IsAsciiAlnum(t[i]))
    && t[|t| - 1] == '>'
    && (k == |t| - 1 || (Text.IsPySpace(t[k]) && forall i :: k < i < |t| - 1 ==> t[i] != '>'))
  }

  /** The run of letters and digits at the start of `u` ends where the first other character is. */
  lemma AlnumRunStopsAt(u: string, m: nat)
    requires m < |u| && !IsAsciiAlnum(u[m])
    requires forall i :: 0 <= i < m ==> IsAsciiAlnum(u[i])
    ensures AlnumRun(u) == m
  {
  }

  /** The first `c` in `u` is at `m` when `u[m]` is `c` and nothing before it is. */
  lemma IndexOfAt(u: string, c: char, m: nat)
    requires m < |u| && u[m] == c
    requires forall i :: 0 <= i < m ==> u[i] != c
    ensures IndexOf(u, c) == Some(m)
  {
    assert u[m] in u;
  }

  /** A whitespace character is not an ASCII letter or digit. */
  lemma SpaceIsNotAlnum(c: char)
    requires Text.IsPySpace(c)
    ensures !IsAsciiAlnum(c)
  {
  }

  /** Every match at the start of `s` is the one `TagAt` finds, with its name and its end. */
  lemma TagAtComplete(s: string, n: nat, j: nat, k: nat)
    requires n <= |s| && IsTagText(s[..n], j, k)
    ensures TagAt(s) == Some(TagMatch(s[j..k], n))
  {
    TagTextOpening(s, n, j, k);
    TagTextName(s, n, j, k);
    if k < n - 1 {
      TagTextAttributes(s, n, j, k);
    } else {
      assert s[k] == s[..n][k];
    }
    TagAtByParts(s, n, j, k);
  }

  /** `TagAt` assembled from the facts about the opening, the name and the end of a match. */
  lemma TagAtByParts(s: string, n: nat, j: nat, k: nat)
    requires j < k < n <= |s| && s[0] == '<'
    requires j == (if 2 <= |s| && s[1] == '/' then 2 else 1) && AlnumRun(s[j..]) == k - j
    requires || (k == n - 1 && s[k] == '>')
             || (k < n - 1 && Text.IsPySpace(s[k]) && s[k] != '>' && IndexOf(s[k..], '>') == Some(n - 1 - k))
    ensures TagAt(s) == Some(TagMatch(s[j..k], n))
  {
  }

  /** The opening of a match: "<", and "/" exactly when the name starts at 2. */
  lemma TagTextOpening(s: string, n: nat, j: nat, k: nat)
    requires n <= |s| && IsTagText(s[..n], j, k)
    ensures s != [] && s[0] == '<'
    ensures j == (if 2 <= |s| && s[1] == '/' then 2 else 1)
  {
    var t := s[..n];
    assert s[0] == t[0] && s[1] == t[1];
    if j == 1 {
      assert IsAsciiAlnum(t[1]);
    }
  }

  /** The name of a match is the whole run of letters and digits after the opening. */
  lemma TagTextName(s: string, n: nat, j: nat, k: nat)
    requires n <= |s| && IsTagText(s[..n], j, k)
    ensures AlnumRun(s[j..]) == k - j
  {
    var t := s[..n];
    var u := s[j..];
    forall i | 0 <= i < k - j
      ensures IsAsciiAlnum(u[i])
    {
      assert u[i] == t[j + i];
    }
    assert u[k - j] == t[k];
    if k < n - 1 {
      SpaceIsNotAlnum(t[k]);
    }
    AlnumRunStopsAt(u, k - j);
  }

  /** After a whitespace character, the match runs to the first ">". */
  lemma TagTextAttributes(s: string, n: nat, j: nat, k: nat)
    requires n <= |s| && IsTagText(s[..n], j, k) && k < n - 1
    ensures Text.IsPySpace(s[k]) && s[k] != '>'
    ensures IndexOf(s[k..], '>') == Some(n - 1 - k)
  {
    var t := s[..n];
    var v := s[k..];
    assert s[k] == t[k];
    forall i | 0 <= i < n - 1 - k
      ensures v[i] != '>'
    {
      assert v[i] == t[k + i];
    }
    assert v[n - 1 - k] == t[n - 1];
    IndexOfAt(v, '>', n - 1 - k);
  }

  /** What `TagAt` finds is a match of the pattern. */
  lemma TagAtSound(s: string) returns (j: nat, k: nat)
    requires TagAt(s).Some?
    ensures IsTagText(s[..TagAt(s).value.end], j, k) && TagAt(s).value.name == s[j..k]
  {
    var m := TagAt(s).value;
    j := if 2 <= |s| && s[1] == '/' then 2 else 1;
    var u := s[j..];
    k := j + AlnumRun(u);
    var t := s[..m.end];
    assert t[0] == s[0] && t[|t| - 1] == s[m.end - 1];
    assert j == 2 ==> t[1] == s[1];
    forall i | j <= i < k
      ensures IsAsciiAlnum(t[i])
    {
      assert t[i] == u[i - j];
    }
    if k < |s| && s[k] == '>' {
      assert m.end == k + 1;
    } else {
      var v := s[k..];
      var g := IndexOf(v, '>').value;
      assert m.end == k + g + 1;
      assert t[k] == s[k];
      forall i | k < i < m.end - 1
        ensures t[i] != '>'
      {
        assert t[i] == v[i - k];
      }
    }
  }

  /** `TagAt` finds nothing exactly when no prefix of `s` matches the pattern. */
  lemma TagAtNoneIff(s: string)
    ensures TagAt(s).None? <==> forall n: nat, j: nat, k: nat :: n <= |s| ==> !IsTagText(s[..n], j, k)
  {
    if TagAt(s).Some? {
      var j, k := TagAtSound(s);
    } else {
      forall n: nat, j: nat, k: nat | n <= |s|
        ensures !IsTagText(s[..n], j, k)
      {
        if IsTagText(s[..n], j, k) {
          TagAtComplete(s, n, j, k);
        }
      }
    }
  }

  predicate IsAllowed(name: string) {
    Text.Lower(name) in AllowedTags
  }

  /** One left-to-right pass that deletes every tag whose name is not allowed. */
  function TagFilter(s: string): (r: string)
    ensures |r| <= |s|
    ensures r == s || |r| < |s|
    decreases |s|
  {
    if s == [] then []
    else match TagAt(s)
      case Some(m) => (if IsAllowed(m.name) then s[..m.end] else []) + TagFilter(s[m.end..])
      case None => [s[0]] + TagFilter(s[1..])
  }

  /** A tag at the front is kept whole when its name is allowed and deleted when it is not. */
  lemma TagFilterAtTag(s: string, n: nat, j: nat, k: nat)
    requires n <= |s| && IsTagText(s[..n], j, k)
    ensures IsAllowed(s[j..k]) ==> TagFilter(s) == s[..n] + TagFilter(s[n..])
    ensures !IsAllowed(s[j..k]) ==> TagFilter(s) == TagFilter(s[n..])
  {
    TagAtComplete(s, n, j, k);
  }

  /** Where no tag starts, the pass copies the character and moves on. */
  lemma TagFilterNoTag(s: string)
    requires s != [] && forall n: nat, j: nat, k: nat :: n <= |s| ==> !IsTagText(s[..n], j, k)
    ensures TagFilter(s) == [s[0]] + TagFilter(s[1..])
  {
    TagAtNoneIff(s);
  }

  /** A character other than "<" starts no tag, so the pass copies it. */
  lemma TagFilterPlainStep(s: string)
    requires s != [] && s[0] != '<'
    ensures TagFilter(s) == [s[0]] + TagFilter(s[1..])
  {
    assert TagAt(s) == None;
  }

  /** Text without "<" is kept as it is, whatever follows it. */
  lemma {:induction false} TagFilterKeepsPlain(a: string, b: string)
    requires '<' !in a
    ensures TagFilter(a + b) == a + TagFilter(b)
    decreases |a|
  {
    if a == [] {
      assert a + b == b;
    } else {
      var s := a + b;
      var c := a[0];
      var a' := a[1..];
      assert c in a;
      assert s[0] == c && s[1..] == a' + b;
      assert forall x :: x in a' ==> x in a;
      TagFilterPlainStep(s);
      TagFilterKeepsPlain(a', b);
      calc {
        TagFilter(s);
      ==
        [c] + TagFilter(a' + b);
      ==
        [c] + (a' + TagFilter(b));
      == { assert [c] + (a' + TagFilter(b)) == ([c] + a') + TagFilter(b); }
        ([c] + a') + TagFilter(b);
      == { assert [c] + a' == a; }
        a + TagFilter(b);
      }
    }
  }

  /** Between plain text and the rest, a tag that is not allowed is deleted and an allowed one kept. */
  lemma TagFilterAroundTag(a: string, t: string, b: string, j: nat, k: nat)
    requires '<' !in a && IsTagText(t, j, k)
    ensures IsAllowed(t[j..k]) ==> TagFilter(a + t + b) == a + t + TagFilter(b)
    ensures !IsAllowed(t[j..k]) ==> TagFilter(a + t + b) == a + TagFilter(b)
  {
    TagFilterTagThen(t, b, j, k);
    TagFilterPlainAround(a, t, b, IsAllowed(t[j..k]));
  }

  /** Plain text in front of a piece that the pass keeps whole or deletes. */
  lemma TagFilterPlainAround(a: string, t: string, b: string, allowed: bool)
    requires '<' !in a && TagFilter(t + b) == (if allowed then t else []) + TagFilter(b)
    ensures allowed ==> TagFilter(a + t + b) == a + t + TagFilter(b)
    ensures !allowed ==> TagFilter(a + t + b) == a + TagFilter(b)
  {
    var u := t + b;
    var kept := if allowed then t else [];
    var rest := TagFilter(b);
    TagFilterPlainThen(a, u, kept, rest);
    assert a + t + b == a + u;
    assert a + kept == (if allowed then a + t else a);
  }

  /** Plain text in front of any text whose filtered form is known. */
  lemma TagFilterPlainThen(a: string, u: string, kept: string, rest: string)
    requires '<' !in a && TagFilter(u) == kept + rest
    ensures TagFilter(a + u) == a + kept + rest
  {
    TagFilterKeepsPlain(a, u);
    assert a + (kept + rest) == (a + kept) + rest;
  }

  /** A tag followed by more text: the tag is kept or deleted, and the pass goes on after it. */
  lemma TagFilterTagThen(t: string, b: string, j: nat, k: nat)
    requires IsTagText(t, j, k)
    ensures TagFilter(t + b) == (if IsAllowed(t[j..k]) then t else []) + TagFilter(b)
  {
    var u := t + b;
    assert u[..|t|] == t;
    assert u[|t|..] == b;
    assert u[j..k] == t[j..k];
    TagAtComplete(u, |t|, j, k);
  }

  /** The names of the tags the same pass finds, in order. */
  function TagsOf(s: string): seq<string>
    decreases |s|
  {
    if s == [] then []
    else match TagAt(s)
      case Some(m) => [m.name] + TagsOf(s[m.end..])
      case None => TagsOf(s[1..])
  }

  predicate AllTagsAllowed(s: string) {
    forall i :: 0 <= i < |TagsOf(s)| ==> IsAllowed(TagsOf(s)[i])
  }

  lemma AllowedAfterTag(s: string, m: TagMatch)
    requires s != [] && TagAt(s) == Some(m)
    ensures AllTagsAllowed(s) <==> IsAllowed(m.name) && AllTagsAllowed(s[m.end..])
  {
    var tags := TagsOf(s);
    var rest := TagsOf(s[m.end..]);
    assert tags == [m.name] + rest;
    if IsAllowed(m.name) && AllTagsAllowed(s[m.end..]) {
      forall i | 0 <= i < |tags|
        ensures IsAllowed(tags[i])
      {
        if i > 0 {
          assert tags[i] == rest[i - 1];
        }
      }
    }
    if AllTagsAllowed(s) {
      assert IsAllowed(tags[0]);
      forall i | 0 <= i < |rest|
        ensures IsAllowed(rest[i])
      {
        assert rest[i] == tags[i + 1];
      }
    }
  }

  lemma FilterAfterTag(s: string, m: TagMatch)
    requires s != [] && TagAt(s) == Some(m)
    ensures IsAllowed(m.name) ==> (TagFilter(s) == s <==> TagFilter(s[m.end..]) == s[m.end..])
    ensures !IsAllowed(m.name) ==> TagFilter(s) != s
  {
    var rest := s[m.end..];
    if IsAllowed(m.name) {
      assert s == s[..m.end] + rest;
      assert TagFilter(s) == s[..m.end] + TagFilter(rest);
      if TagFilter(s) == s {
        assert TagFilter(rest) == TagFilter(s)[m.end..];
      }
    } else {
      assert |TagFilter(s)| <= |rest| < |s|;
    }
  }

  lemma FilterWithoutTag(s: string)
    requires s != [] && TagAt(s) == None
    ensures TagsOf(s) == TagsOf(s[1..])
    ensures TagFilter(s) == s <==> TagFilter(s[1..]) == s[1..]
  {
    assert TagFilter(s) == [s[0]] + TagFilter(s[1..]);
    assert s == [s[0]] + s[1..];
    if TagFilter(s) == s {
      assert TagFilter(s[1..]) == TagFilter(s)[1..];
    }
  }

  /** A pass changes the text exactly when it finds a tag that is not allowed. */
  lemma {:induction false} TagFilterFixedIffAllowed(s: string)
    ensures TagFilter(s) == s <==> AllTagsAllowed(s)
    decreases |s|
  {
    if s != [] {
      var r := TagAt(s);
      if r.Some? {
        TagFilterFixedIffAllowed(s[r.value.end..]);
        AllowedAfterTag(s, r.value);
        FilterAfterTag(s, r.value);
      } else {
        TagFilterFixedIffAllowed(s[1..]);
        FilterWithoutTag(s);
      }
    }
  }

  lemma {:induction false} NoTagWithoutLessThan(s: string)
    requires '<' !in s
    ensures TagsOf(s) == []
    decreases |s|
  {
    if s != [] {
      assert s[1..] == s[1..] && forall c :: c in s[1..] ==> c in s;
      NoTagWithoutLessThan(s[1..]);
    }
  }

  /** The sanitiser's filter pass as written: a single pass. */
  function SanitizeAsWritten(s: string): string {
    TagFilter(NormalizeBr(Unescape(s)))
  }

  lemma CounterexampleUnchangedBeforeFilter()
    ensures NormalizeBr(Unescape("<<x>y>")) == "<<x>y>"
  {
    var s := "<<x>y>";
    NoAmpersandNoEntity(s, "&lt;");
    NoAmpersandNoEntity(s, "&gt;");
    UnescapeLeavesNoEntity(s);
    NormalizeBrWithoutB(s);
  }

  lemma CounterexampleFilterPass()
    ensures TagFilter("<<x>y>") == "<y>"
  {
    var s := "<<x>y>";
    assert AlnumRun(s[1..]) == 0;
    assert TagAt(s) == None;
    var t := s[1..];
    assert t == "<x>y>";
    assert t[1..] == "x>y>" && t[1..2] == "x";
    assert AlnumRun(">y>") == 0;
    assert AlnumRun("x>y>") == 1;
    assert TagAt(t) == Some(TagMatch("x", 3));
    assert !IsAllowed("x") by {
      assert Text.Lower("x") == "x";
    }
    assert t[3..] == "y>";
    assert TagAt("y>") == None && TagAt(">") == None;
    assert TagFilter(">") == ">";
    assert TagFilter("y>") == "y>";
  }

  lemma CounterexampleTagLeft()
    ensures TagsOf("<y>") == ["y"] && !IsAllowed("y")
  {
    var t := "<y>";
    assert t[1..] == "y>" && t[1..2] == "y";
    assert AlnumRun(">") == 0;
    assert AlnumRun("y>") == 1;
    assert TagAt(t) == Some(TagMatch("y", 3));
    assert Text.Lower("y") == "y";
  }

  /**
   * A single pass can leave a tag that is not allowed: deleting "<x>" from
   * "<<x>y>" joins the text around it into the tag "<y>".
   */
  lemma SinglePassLeavesForbiddenTag()
    ensures SanitizeAsWritten("<<x>y>") == "<y>"
    ensures !AllTagsAllowed(SanitizeAsWritten("<<x>y>"))
  {
    CounterexampleUnchangedBeforeFilter();
    CounterexampleFilterPass();
    CounterexampleTagLeft();
    assert SanitizeAsWritten("<<x>y>") == "<y>";
    assert TagsOf("<y>")[0] == "y";
  }

  lemma {:induction false} NoAmpersandNoEntity(s: string, p: string)
    requires p != [] && p[0] == '&' && '&' !in s
    ensures !Text.Contains(s, p)
    decreases |s|
  {
    if s != [] {
      assert forall c :: c in s[1..] ==> c in s;
      NoAmpersandNoEntity(s[1..], p);
    }
  }

  /**
   * The corrected filter: passes are repeated until one changes nothing, so
   * every tag left is allowed.
   */
  function TagFilterFix(s: string): (r: string)
    ensures AllTagsAllowed(r)
    ensures |r| <= |s|
    ensures AllTagsAllowed(s) ==> r == s
    decreases |s|
  {
    var t := TagFilter(s);
    TagFilterFixedIffAllowed(s);
    if t == s then s else TagFilterFix(t)
  }

  /** Filtering a filtered text changes nothing; text without "<" is kept. */
  lemma TagFilterFixIdempotent(s: string)
    ensures TagFilterFix(TagFilterFix(s)) == TagFilterFix(s)
    ensures '<' !in s ==> TagFilterFix(s) == s
  {
    if '<' !in s {
      NoTagWithoutLessThan(s);
    }
  }

  /** The corrected filter also keeps text without "<" and goes on after it. */
  lemma {:induction false} TagFilterFixKeepsPlain(a: string, b: string)
    requires '<' !in a
    ensures TagFilterFix(a + b) == a + TagFilterFix(b)
    decreases |b|
  {
    TagFilterKeepsPlain(a, b);
    var t := TagFilter(b);
    if t != b {
      assert a + t != a + b by {
        assert |a + t| < |a + b|;
      }
      TagFilterFixKeepsPlain(a, t);
    }
  }

  /** The corrected filter gives what one pass gives exactly when that pass leaves only allowed tags. */
  lemma OnePassEnoughIff(s: string)
    ensures TagFilterFix(s) == TagFilter(s) <==> AllTagsAllowed(TagFilter(s))
  {
    TagFilterFixedIffAllowed(s);
  }

  /** The corrected sanitiser, kept beside the one the send path uses. */
  function Sanitize(s: string): (r: string)
    ensures AllTagsAllowed(r)
  {
    TagFilterFix(NormalizeBr(Unescape(s)))
  }

  /** The two sanitisers agree exactly when the one-pass result holds only allowed tags. */
  lemma SanitizeAgreesIff(s: string)
    ensures Sanitize(s) == SanitizeAsWritten(s) <==> AllTagsAllowed(SanitizeAsWritten(s))
  {
    OnePassEnoughIff(NormalizeBr(Unescape(s)));
  }

  /** Text with no "<" and no "&" comes out of both sanitisers as it went in. */
  lemma SanitizeKeepsPlainText(s: string)
    requires '<' !in s && '&' !in s
    ensures SanitizeAsWritten(s) == s && Sanitize(s) == s
  {
    NoAmpersandNoEntity(s, "&lt;");
    NoAmpersandNoEntity(s, "&gt;");
    UnescapeLeavesNoEntity(s);
    NormalizeBrIsIdentityWithoutLessThan(s);
    TagFilterKeepsPlain(s, []);
    TagFilterFixKeepsPlain(s, []);
    assert s + [] == s;
  }

  // ---------------------------------------------------------------------------
  // Sending
  // ---------------------------------------------------------------------------

  /** The guard at the top of `send_telegram_message`. */
  predicate TooShort(message: string) {
    message == "" || |Text.Strip(message)| < 10
  }

  /** The chunks a message is sent as: the one-pass sanitiser, then the splitter. */
  function OutgoingChunks(message: string): seq<string> {
    SafeSplit(SanitizeAsWritten(message), MaxMessageLength - SplitBuffer)
  }

  /**
   * One chunk on the wire. `post(chunk, html, retry)` is the status code of a
   * post of `chunk`, in HTML mode when `html` holds, `retry` telling the retry
   * after a 400 from the first post. The answer is the mode later chunks are
   * sent in, or None when the chunk did not get through: a 400 drops
   * `parse_mode` from the shared payload for good.
   */
  function PostChunk(chunk: string, html: bool, post: (string, bool, bool) -> int): Option<bool> {
    var code := post(chunk, html, false);
    if code == 200 then Some(html)
    else if code != 400 then None
    else if post(chunk, false, true) == 200 then Some(false)
    else None
  }

  /** Sending `chunks` in order starting in mode `html`: the final mode, or None at the first failure. */
  function SendFrom(chunks: seq<string>, html: bool, post: (string, bool, bool) -> int): Option<bool>
    decreases |chunks|
  {
    if chunks == [] then Some(html)
    else match PostChunk(chunks[0], html, post)
      case None => None
      case Some(h) => SendFrom(chunks[1..], h, post)
  }

  /** Sending `a + b` is sending `a`, then `b` in the mode `a` ended in. */
  lemma {:induction false} SendFromAppend(a: seq<string>, b: seq<string>, html: bool, post: (string, bool, bool) -> int)
    ensures SendFrom(a + b, html, post) ==
              match SendFrom(a, html, post)
              case None => None
              case Some(h) => SendFrom(b, h, post)
    decreases |a|
  {
    if a == [] {
      assert a + b == b;
    } else {
      assert (a + b)[0] == a[0] && (a + b)[1..] == a[1..] + b;
      match PostChunk(a[0], html, post)
      case None =>
      case Some(h) => SendFromAppend(a[1..], b, h, post);
    }
  }

  /** Once `parse_mode` is dropped it is never restored. */
  lemma {:induction false} PlainStaysPlain(chunks: seq<string>, post: (string, bool, bool) -> int)
    ensures SendFrom(chunks, false, post) != Some(true)
    decreases |chunks|
  {
    if chunks != [] {
      PlainStaysPlain(chunks[1..], post);
    }
  }

  /** The whole message goes out as HTML exactly when every chunk's first HTML post is answered 200. */
  lemma {:induction false} HtmlAllAcceptedIff(chunks: seq<string>, post: (string, bool, bool) -> int)
    ensures SendFrom(chunks, true, post) == Some(true) <==> forall i :: 0 <= i < |chunks| ==> post(chunks[i], true, false) == 200
    decreases |chunks|
  {
    if chunks != [] {
      HtmlAllAcceptedIff(chunks[1..], post);
      PlainStaysPlain(chunks[1..], post);
      assert forall i :: 1 <= i < |chunks| ==> chunks[i] == chunks[1..][i - 1];
      if post(chunks[0], true, false) == 200 && forall i :: 0 <= i < |chunks| - 1 ==> post(chunks[1..][i], true, false) == 200 {
        assert SendFrom(chunks, true, post) == SendFrom(chunks[1..], true, post);
      }
    }
  }

  /** In plain mode the message gets through exactly when each chunk does, plain. */
  lemma {:induction false} PlainAllAcceptedIff(chunks: seq<string>, post: (string, bool, bool) -> int)
    ensures SendFrom(chunks, false, post).Some? <==> forall i :: 0 <= i < |chunks| ==> PostChunk(chunks[i], false, post).Some?
    decreases |chunks|
  {
    if chunks != [] {
      PlainAllAcceptedIff(chunks[1..], post);
      assert forall i :: 1 <= i < |chunks| ==> chunks[i] == chunks[1..][i - 1];
    }
  }

  /**
   * The sending loop of `send_telegram_message`: posts the chunks in order,
   * drops HTML mode for good at the first 400, and stops at the first chunk
   * that does not get through.
   */
  method DeliverInOrder(chunks: seq<string>, post: (string, bool, bool) -> int) returns (ok: bool, ghost sent: seq<string>)
    ensures ok <==> SendFrom(chunks, true, post).Some?
    ensures sent <= chunks
    ensures ok ==> sent == chunks
    ensures !ok ==> sent != [] && SendFrom(sent[..|sent| - 1], true, post).Some? && SendFrom(sent, true, post).None?
  {
    var html := true;
    sent := [];
    for i := 0 to |chunks|
      invariant sent == chunks[..i]
      invariant SendFrom(sent, true, post) == Some(html)
    {
      var chunk := chunks[i];
      SendFromAppend(sent, [chunk], true, post);
      SendFromAppend(sent + [chunk], chunks[i + 1..], true, post);
      assert chunks == sent + [chunk] + chunks[i + 1..];
      var before := sent;
      sent := sent + [chunk];
      assert sent[..|sent| - 1] == before;
      var code := post(chunk, html, false);
      if code != 200 {
        if code == 400 {
          html := false;
          code := post(chunk, false, true);
          if code == 200 {
            continue;
          }
        }
        return false, sent;
      }
    }
    assert chunks[..|chunks|] == chunks;
    ok := true;
  }

  /**
   * `send_telegram_message`: refuses short messages, then sends the sanitised
   * chunks in order as `DeliverInOrder` does.
   */
  method SendTelegramMessage(message: string, post: (string, bool, bool) -> int) returns (ok: bool, ghost sent: seq<string>)
    ensures TooShort(message) ==> !ok && sent == []
    ensures ok <==> !TooShort(message) && SendFrom(OutgoingChunks(message), true, post).Some?
    ensures sent <= OutgoingChunks(message)
    ensures ok ==> sent == OutgoingChunks(message)
    ensures !ok && !TooShort(message) ==> sent != [] && SendFrom(sent[..|sent| - 1], true, post).Some? && SendFrom(sent, true, post).None?
  {
    if message == "" || |Text.Strip(message)| < 10 {
      return false, [];
    }
    var text := SanitizeAsWritten(message);
    var chunks := SafeHtmlSplit(text, MaxMessageLength - SplitBuffer);
    assert chunks == OutgoingChunks(message);
    ok, sent := DeliverInOrder(chunks, post);
  }
}
