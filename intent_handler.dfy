/**
 * The intent classifier of `IntentHandler`: three case-insensitive keyword
 * patterns of the form `\b(alt1|alt2|...)\b`, tested in a fixed priority
 * order (greeting, closing, thanks), with `legal_query` as the default.
 *
 * `Matches` states what it means for a pattern to be found anywhere in a
 * text; `Search` is the scanner that decides it, and is proved to agree
 * with `Matches` on every text.
 */
module IntentHandler {
  import opened TextChars

  datatype Option<T> = None | Some(value: T)

  datatype Intent = Greeting | Closing | Thanks | LegalQuery

  /** The three compiled patterns of `IntentHandler.__init__`. */
  datatype Family = GreetingFamily | ClosingFamily | ThanksFamily

  /**
   * One alternative of a pattern, in lower case: a literal `Word`, or
   * `Spaced(head, tail)` for `head\s*tail`.
   */
  datatype Keyword = Word(w: string) | Spaced(head: string, tail: string)

  /** The alternatives of each pattern, in the order the pattern lists them. */
  function Alternatives(f: Family): (ks: seq<Keyword>)
    ensures forall i :: 0 <= i < |ks| ==> WellFormed(ks[i])
  {
    match f
    case GreetingFamily =>
      [Word("hello"), Word("hi"), Word("hey"), Word("good morning"), Word("good afternoon"),
       Word("good evening"), Word("good night"), Word("greetings"), Word("howdy")]
    case ClosingFamily =>
      [Word("bye"), Word("goodbye"), Word("see you"), Word("farewell"), Word("later"),
       Word("ciao"), Word("murabeho")]
    case ThanksFamily =>
      [Word("thank"), Word("thanks"), Spaced("thank", "you"), Word("thx"), Word("merci"),
       Word("gracias"), Word("murakoze")]
  }

  /**
   * Every keyword begins and ends with a word character, and so does the
   * tail of a spaced keyword (which makes the run of spaces before it maximal).
   */
  predicate WellFormed(k: Keyword) {
    match k
    case Word(w) => |w| > 0 && IsWordChar(w[0]) && IsWordChar(w[|w| - 1])
    case Spaced(h, t) => |h| > 0 && |t| > 0 && IsWordChar(h[0]) && IsWordChar(t[0]) && IsWordChar(t[|t| - 1])
  }

  /** The first character of a keyword. */
  function Initial(k: Keyword): char
    requires WellFormed(k)
  {
    match k
    case Word(w) => w[0]
    case Spaced(h, _) => h[0]
  }

  /** Is `i` a word character position of `text`? Positions outside the text are not. */
  predicate WordAt(text: string, i: int) {
    0 <= i < |text| && IsWordChar(text[i])
  }

  /** Python's `\b` at position `i` (between `text[i-1]` and `text[i]`). */
  predicate WordBoundary(text: string, i: int) {
    WordAt(text, i - 1) != WordAt(text, i)
  }

  /** `text` holds `w`, up to ASCII case, from position `p` on. */
  predicate FoldedAt(text: string, p: nat, w: string)
    decreases |w|
  {
    p <= |text| && (|w| == 0 || (p < |text| && FoldChar(text[p]) == w[0] && FoldedAt(text, p + 1, w[1..])))
  }

  lemma {:induction false} FoldedAtChars(text: string, p: nat, w: string)
    requires FoldedAt(text, p, w)
    ensures p + |w| <= |text|
    ensures forall j :: 0 <= j < |w| ==> FoldChar(text[p + j]) == w[j]
    decreases |w|
  {
    if |w| > 0 {
      FoldedAtChars(text, p + 1, w[1..]);
      assert |w[1..]| == |w| - 1;
      forall j | 0 <= j < |w| ensures FoldChar(text[p + j]) == w[j] {
        if j > 0 { assert w[1..][j - 1] == w[j]; }
      }
    }
  }

  lemma {:induction false} FoldedAtCaseEquivalent(a: string, b: string, p: nat, w: string)
    requires CaseEquivalent(a, b) && FoldedAt(a, p, w)
    ensures FoldedAt(b, p, w)
    decreases |w|
  {
    if |w| > 0 {
      FoldedAtCaseEquivalent(a, b, p + 1, w[1..]);
    }
  }

  /** Every position in `[i, j)` holds whitespace. */
  predicate AllSpace(text: string, i: nat, j: nat)
    requires j <= |text|
  {
    forall m :: i <= m < j ==> IsSpace(text[m])
  }

  /** Keyword `k` matches exactly the characters `[p, e)` of `text`. */
  predicate Spans(text: string, k: Keyword, p: nat, e: nat) {
    p <= e <= |text| &&
    match k
    case Word(w) => e == p + |w| && FoldedAt(text, p, w)
    case Spaced(h, t) =>
      p + |h| + |t| <= e && FoldedAt(text, p, h) && FoldedAt(text, e - |t|, t)
      && AllSpace(text, p + |h|, e - |t|)
  }

  /** `\b k \b` matches `[p, e)` of `text`. */
  predicate OccursAt(text: string, k: Keyword, p: nat, e: nat) {
    WordBoundary(text, p) && WordBoundary(text, e) && Spans(text, k, p, e)
  }

  /** `pattern.search(text)` finds a match: some alternative occurs somewhere as a whole word. */
  ghost predicate Matches(f: Family, text: string) {
    exists i, p: nat, e: nat :: 0 <= i < |Alternatives(f)| && OccursAt(text, Alternatives(f)[i], p, e)
  }

  /** The first position at or after `i` that does not hold whitespace (`\s*` is greedy). */
  function SkipSpaces(text: string, i: nat): (j: nat)
    requires i <= |text|
    ensures i <= j <= |text|
    ensures AllSpace(text, i, j)
    ensures j == |text| || !IsSpace(text[j])
    decreases |text| - i
  {
    if i < |text| && IsSpace(text[i]) then SkipSpaces(text, i + 1) else i
  }

  /** Where keyword `k` ends when matched at `p`; a keyword has at most one match at a position. */
  function KeywordEnd(text: string, k: Keyword, p: nat): (r: Option<nat>)
    requires p <= |text| && WellFormed(k)
    ensures r.Some? ==> Spans(text, k, p, r.value)
    ensures forall e: nat :: Spans(text, k, p, e) ==> r == Some(e)
  {
    match k
    case Word(w) =>
      if FoldedAt(text, p, w) then FoldedAtChars(text, p, w); Some(p + |w|) else None
    case Spaced(h, t) =>
      if FoldedAt(text, p, h) then
        FoldedAtChars(text, p, h);
        var q := SkipSpaces(text, p + |h|);
        if FoldedAt(text, q, t) then
          FoldedAtChars(text, q, t);
          SpacedEndUnique(text, k, p, q);
          Some(q + |t|)
        else
          SpacedEndUnique(text, k, p, q);
          None
      else None
  }

  /** The tail of a spaced keyword can only start where the run of spaces ends. */
  lemma SpacedEndUnique(text: string, k: Keyword, p: nat, q: nat)
    requires k.Spaced? && WellFormed(k) && p + |k.head| <= |text|
    requires q == SkipSpaces(text, p + |k.head|)
    ensures forall e: nat :: Spans(text, k, p, e) ==> e - |k.tail| == q
  {
    forall e: nat | Spans(text, k, p, e) ensures e - |k.tail| == q {
      var s := e - |k.tail|;
      FoldedAtChars(text, s, k.tail);
      assert FoldChar(text[s + 0]) == k.tail[0];
      FoldedWordIsNotSpace(text[s]);
    }
  }

  /** Does some keyword of `ks` occur as a whole word starting at `p`? */
  function MatchAt(ks: seq<Keyword>, text: string, p: nat): (b: bool)
    requires p <= |text|
    requires forall i :: 0 <= i < |ks| ==> WellFormed(ks[i])
    ensures b <==> exists i, e: nat :: 0 <= i < |ks| && OccursAt(text, ks[i], p, e)
    decreases |ks|
  {
    if ks == [] then false
    else
      var first := match KeywordEnd(text, ks[0], p)
        case Some(e) => WordBoundary(text, p) && WordBoundary(text, e)
        case None => false;
      var rest := MatchAt(ks[1..], text, p);
      assert first ==> exists i, e: nat :: 0 <= i < |ks| && OccursAt(text, ks[i], p, e) by {
        if first {
          var e := KeywordEnd(text, ks[0], p).value;
          assert OccursAt(text, ks[0], p, e);
        }
      }
      assert rest ==> exists i, e: nat :: 0 <= i < |ks| && OccursAt(text, ks[i], p, e) by {
        if rest {
          var i, e: nat :| 0 <= i < |ks[1..]| && OccursAt(text, ks[1..][i], p, e);
          assert OccursAt(text, ks[i + 1], p, e);
        }
      }
      assert (exists i, e: nat :: 0 <= i < |ks| && OccursAt(text, ks[i], p, e)) ==> first || rest by {
        if exists i, e: nat :: 0 <= i < |ks| && OccursAt(text, ks[i], p, e) {
          var i, e: nat :| 0 <= i < |ks| && OccursAt(text, ks[i], p, e);
          if i > 0 {
            assert OccursAt(text, ks[1..][i - 1], p, e);
          }
        }
      }
      first || rest
  }

  /** Scans the positions from `p` on for a whole-word occurrence of a keyword of `f`. */
  function SearchFrom(f: Family, text: string, p: nat): (b: bool)
    requires p <= |text|
    ensures b <==> exists i, q: nat, e: nat :: p <= q && 0 <= i < |Alternatives(f)| && OccursAt(text, Alternatives(f)[i], q, e)
    decreases |text| - p
  {
    var here := WordBoundary(text, p) && MatchAt(Alternatives(f), text, p);
    var later := p < |text| && SearchFrom(f, text, p + 1);
    assert (exists i, q: nat, e: nat :: p <= q && 0 <= i < |Alternatives(f)| && OccursAt(text, Alternatives(f)[i], q, e)) ==> here || later by {
      if exists i, q: nat, e: nat :: p <= q && 0 <= i < |Alternatives(f)| && OccursAt(text, Alternatives(f)[i], q, e) {
        var i, q: nat, e: nat :| p <= q && 0 <= i < |Alternatives(f)| && OccursAt(text, Alternatives(f)[i], q, e);
        if q == p {
          assert here;
        } else {
          assert p < |text|;
        }
      }
    }
    here || later
  }

  /** `pattern.search(text)` is truthy: decided by scanning, and equal to `Matches`. */
  function Search(f: Family, text: string): (b: bool)
    ensures b <==> Matches(f, text)
  {
    SearchFrom(f, text, 0)
  }

  /** Position `p` holds the first character of a word of `text`. */
  predicate StartsWord(text: string, p: nat) {
    p < |text| && IsWordChar(text[p]) && (p == 0 || !IsWordChar(text[p - 1]))
  }

  /** The folded first characters of the words of `text` that start at `p` or later. */
  function WordInitials(text: string, p: nat): set<char>
    decreases |text| - p
  {
    if p >= |text| then {}
    else (if StartsWord(text, p) then {FoldChar(text[p])} else {}) + WordInitials(text, p + 1)
  }

  lemma {:induction false} WordInitialsHas(text: string, q: nat, p: nat)
    requires q <= p && StartsWord(text, p)
    ensures FoldChar(text[p]) in WordInitials(text, q)
    decreases p - q
  {
    if q < p {
      WordInitialsHas(text, q + 1, p);
    }
  }

  /** The first letters of the keywords of a family. */
  function Initials(f: Family): set<char> {
    match f
    case GreetingFamily => {'h', 'g'}
    case ClosingFamily => {'b', 'g', 's', 'f', 'l', 'c', 'm'}
    case ThanksFamily => {'t', 'm', 'g'}
  }

  lemma InitialsOfAlternatives(f: Family)
    ensures forall i :: 0 <= i < |Alternatives(f)| ==> WellFormed(Alternatives(f)[i]) && Initial(Alternatives(f)[i]) in Initials(f)
  {
  }

  /** `\b` before a keyword: an occurrence begins a word, with the keyword's first letter. */
  lemma OccurrenceStartsAWord(text: string, k: Keyword, p: nat, e: nat)
    requires WellFormed(k) && OccursAt(text, k, p, e)
    ensures StartsWord(text, p) && FoldChar(text[p]) == Initial(k)
  {
    var w := match k case Word(w) => w case Spaced(h, _) => h;
    FoldedAtChars(text, p, w);
    assert FoldChar(text[p + 0]) == w[0];
    FoldedWordIsNotSpace(text[p]);
  }

  /** `\b` after a keyword: an occurrence ends a word. */
  lemma OccurrenceEndsAWord(text: string, k: Keyword, p: nat, e: nat)
    requires WellFormed(k) && OccursAt(text, k, p, e)
    ensures 0 < e <= |text| && IsWordChar(text[e - 1]) && (e == |text| || !IsWordChar(text[e]))
  {
    var w := match k case Word(w) => w case Spaced(_, t) => t;
    var s := e - |w|;
    FoldedAtChars(text, s, w);
    assert s + |w| == e;
    assert FoldChar(text[s + (|w| - 1)]) == w[|w| - 1];
    FoldedWordIsNotSpace(text[e - 1]);
  }

  /** A family whose first letters start no word of the text is not found in it. */
  lemma NoInitialNoMatch(f: Family, text: string)
    requires Initials(f) !! WordInitials(text, 0)
    ensures !Matches(f, text)
  {
    if Matches(f, text) {
      var i, p: nat, e: nat :| 0 <= i < |Alternatives(f)| && OccursAt(text, Alternatives(f)[i], p, e);
      InitialsOfAlternatives(f);
      OccurrenceStartsAWord(text, Alternatives(f)[i], p, e);
      WordInitialsHas(text, 0, p);
    }
  }

  /** In a text made of one word, a keyword is found only if it spans the whole text. */
  lemma SingleWordMatchesWhole(f: Family, text: string)
    requires forall j :: 0 <= j < |text| ==> IsWordChar(text[j])
    requires Matches(f, text)
    ensures exists i :: 0 <= i < |Alternatives(f)| && Spans(text, Alternatives(f)[i], 0, |text|)
  {
    var i, p: nat, e: nat :| 0 <= i < |Alternatives(f)| && OccursAt(text, Alternatives(f)[i], p, e);
    OccurrenceStartsAWord(text, Alternatives(f)[i], p, e);
    OccurrenceEndsAWord(text, Alternatives(f)[i], p, e);
  }

  /** `classify_intent`: the first family that matches wins, in the order greeting, closing, thanks. */
  function Classify(text: string): (r: Intent)
    ensures r == Greeting <==> Matches(GreetingFamily, text)
    ensures r == Closing <==> !Matches(GreetingFamily, text) && Matches(ClosingFamily, text)
    ensures r == Thanks <==> !Matches(GreetingFamily, text) && !Matches(ClosingFamily, text) && Matches(ThanksFamily, text)
    ensures r == LegalQuery <==> !Matches(GreetingFamily, text) && !Matches(ClosingFamily, text) && !Matches(ThanksFamily, text)
  {
    if Search(GreetingFamily, text) then Greeting
    else if Search(ClosingFamily, text) then Closing
    else if Search(ThanksFamily, text) then Thanks
    else LegalQuery
  }

  /** An occurrence survives changing the ASCII case of the text. */
  lemma OccursAtCaseEquivalent(a: string, b: string, k: Keyword, p: nat, e: nat)
    requires CaseEquivalent(a, b) && OccursAt(a, k, p, e)
    ensures OccursAt(b, k, p, e)
  {
    forall i | 0 <= i < |a| ensures IsWordChar(a[i]) == IsWordChar(b[i]) && IsSpace(a[i]) == IsSpace(b[i]) {
      FoldKeepsClasses(a[i], b[i]);
    }
    match k
    case Word(w) =>
      FoldedAtCaseEquivalent(a, b, p, w);
    case Spaced(h, t) =>
      FoldedAtCaseEquivalent(a, b, p, h);
      FoldedAtCaseEquivalent(a, b, e - |t|, t);
  }

  /** `re.IGNORECASE`: whether a pattern is found does not depend on the ASCII case of the text. */
  lemma MatchesIgnoresCase(f: Family, a: string, b: string)
    requires CaseEquivalent(a, b)
    ensures Matches(f, a) <==> Matches(f, b)
  {
    if Matches(f, a) {
      var i, p: nat, e: nat :| 0 <= i < |Alternatives(f)| && OccursAt(a, Alternatives(f)[i], p, e);
      OccursAtCaseEquivalent(a, b, Alternatives(f)[i], p, e);
    }
    if Matches(f, b) {
      var i, p: nat, e: nat :| 0 <= i < |Alternatives(f)| && OccursAt(b, Alternatives(f)[i], p, e);
      OccursAtCaseEquivalent(b, a, Alternatives(f)[i], p, e);
    }
  }

  /** Texts that differ only in ASCII case get the same intent. */
  lemma ClassifyIgnoresCase(a: string, b: string)
    requires CaseEquivalent(a, b)
    ensures Classify(a) == Classify(b)
  {
    MatchesIgnoresCase(GreetingFamily, a, b);
    MatchesIgnoresCase(ClosingFamily, a, b);
    MatchesIgnoresCase(ThanksFamily, a, b);
  }

  /** Upper- or lower-casing a query never changes its intent. */
  lemma ClassifyIgnoresUpperAndLower(s: string)
    ensures Classify(Upper(s)) == Classify(s)
    ensures Classify(Lower(s)) == Classify(s)
  {
    LowerAndUpperAreCaseEquivalent(s);
    ClassifyIgnoresCase(Upper(s), s);
    ClassifyIgnoresCase(Lower(s), s);
  }

  /** The string `classify_intent` returns for an intent. */
  function Label(i: Intent): (s: string)
    ensures s in {"greeting", "closing", "thanks", "legal_query"}
  {
    match i
    case Greeting => "greeting"
    case Closing => "closing"
    case Thanks => "thanks"
    case LegalQuery => "legal_query"
  }

  /** `classify_intent` as the source writes it, returning the label string. */
  function ClassifyIntent(text: string): (name: string)
    ensures name in {"greeting", "closing", "thanks", "legal_query"}
    ensures name == "legal_query" <==> !Matches(GreetingFamily, text) && !Matches(ClosingFamily, text) && !Matches(ThanksFamily, text)
    ensures name == "greeting" <==> Matches(GreetingFamily, text)
    ensures name == "closing" <==> !Matches(GreetingFamily, text) && Matches(ClosingFamily, text)
    ensures name == "thanks" <==> !Matches(GreetingFamily, text) && !Matches(ClosingFamily, text) && Matches(ThanksFamily, text)
  {
    Label(Classify(text))
  }

  /** Distinct intents have distinct labels, so the label determines the intent. */
  lemma LabelInjective(i: Intent, j: Intent)
    ensures Label(i) == Label(j) <==> i == j
  {
  }
}
