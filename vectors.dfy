/**
 * The vector space behind the suggestions (app.py:62-64): each profile becomes a vector
 * of term counts over the sorted vocabulary of the whole catalog (`CountVectorizer`),
 * and the scores are the cosines between those vectors (`cosine_similarity`). Counts,
 * dot products and squared norms are integers; a cosine is a real number pinned down by
 * its square, as the square root itself is not modelled.
 */
module Vectors {
  import opened Wrappers
  import opened Text
  import opened Catalog

  // ---------------------------------------------------------------------------------
  // Tokenization: a fixed, simplified form of the default `CountVectorizer` analyzer
  // (lower-case, then every maximal run of two or more word characters is a token).
  // ---------------------------------------------------------------------------------

  /**
   * Word characters: ASCII letters and digits, '_', the Latin-1 characters that Python
   * counts as alphanumeric (ª ² ³ µ ¹ º ¼ ½ ¾ and U+00C0 to U+00FF but × and ÷), and œ/Œ.
   */
  predicate IsWordChar(c: char) {
    ('a' <= c <= 'z') || ('A' <= c <= 'Z') || ('0' <= c <= '9') || c == '_'
    || c == '\U{aa}' || c == '\U{b2}' || c == '\U{b3}' || c == '\U{b5}' || c == '\U{b9}' || c == '\U{ba}'
    || ('\U{bc}' <= c <= '\U{be}')
    || ('\U{c0}' <= c <= '\U{ff}' && c != '\U{d7}' && c != '\U{f7}') || c == 'Œ' || c == 'œ'
  }

  /** The upper-case letters among the word characters. */
  predicate IsUpper(c: char) {
    ('A' <= c <= 'Z') || ('\U{c0}' <= c <= '\U{de}' && c != '\U{d7}') || c == 'Œ'
  }

  /** Lower case for the letters above; every other character is unchanged. */
  function Lower(c: char): (r: char)
    ensures IsWordChar(c) ==> IsWordChar(r)
    ensures !IsUpper(r)
    ensures !IsUpper(c) ==> r == c
  {
    if ('A' <= c <= 'Z') || ('\U{c0}' <= c <= '\U{de}' && c != '\U{d7}') then (c as int + 32) as char
    else if c == 'Œ' then 'œ'
    else c
  }

  predicate IsToken(t: string) {
    |t| >= 2 && forall i :: 0 <= i < |t| ==> IsWordChar(t[i])
  }

  /** No character of `t` is upper case. */
  predicate IsLowered(t: string) {
    forall i :: 0 <= i < |t| ==> !IsUpper(t[i])
  }

  /** The text lower-cased character by character. */
  function LowerAll(s: string): (r: string)
    ensures |r| == |s|
  {
    if |s| == 0 then "" else [Lower(s[0])] + LowerAll(s[1..])
  }

  /** The run read so far, as a token if it is long enough. */
  function Emit(run: string): seq<string> {
    if |run| >= 2 then [run] else []
  }

  /** Reads `s` left to right; `run` holds the lower-cased word characters of the current run. */
  function Scan(s: string, run: string): (r: seq<string>)
    requires forall i :: 0 <= i < |run| ==> IsWordChar(run[i])
    requires IsLowered(run)
    ensures forall k :: 0 <= k < |r| ==> IsToken(r[k]) && IsLowered(r[k])
    decreases |s|
  {
    if |s| == 0 then Emit(run)
    else if IsWordChar(s[0]) then Scan(s[1..], run + [Lower(s[0])])
    else Emit(run) + Scan(s[1..], "")
  }

  /** The tokens of a text, in order: lower-cased runs of at least two word characters. */
  function Tokenize(s: string): (r: seq<string>)
    ensures forall k :: 0 <= k < |r| ==> IsToken(r[k]) && IsLowered(r[k])
  {
    Scan(s, "")
  }

  lemma {:induction false} ScanWord(s: string, run: string)
    requires forall i :: 0 <= i < |run| ==> IsWordChar(run[i])
    requires IsLowered(run)
    requires forall i :: 0 <= i < |s| ==> IsWordChar(s[i])
    ensures Scan(s, run) == Emit(run + LowerAll(s))
    decreases |s|
  {
    if |s| == 0 {
      assert run + LowerAll(s) == run;
    } else {
      ScanWord(s[1..], run + [Lower(s[0])]);
      assert run + [Lower(s[0])] + LowerAll(s[1..]) == run + LowerAll(s);
    }
  }

  /**
   * A text made only of word characters is one run: it gives its lower-cased self as its
   * only token, or nothing when it is shorter than two characters. With
   * TokenizeSeparated this fixes the tokens of every text.
   */
  lemma WordTokens(s: string)
    requires forall i :: 0 <= i < |s| ==> IsWordChar(s[i])
    ensures Tokenize(s) == Emit(LowerAll(s))
  {
    ScanWord(s, "");
    assert "" + LowerAll(s) == LowerAll(s);
  }

  lemma {:induction false} ScanSeparated(a: string, c: char, b: string, run: string)
    requires !IsWordChar(c)
    requires forall i :: 0 <= i < |run| ==> IsWordChar(run[i])
    requires IsLowered(run)
    ensures Scan(a + [c] + b, run) == Scan(a, run) + Scan(b, "")
    decreases |a|
  {
    if |a| == 0 {
      assert a + [c] + b == [c] + b;
      assert ([c] + b)[1..] == b;
    } else {
      assert (a + [c] + b)[1..] == a[1..] + [c] + b;
      if IsWordChar(a[0]) {
        ScanSeparated(a[1..], c, b, run + [Lower(a[0])]);
      } else {
        ScanSeparated(a[1..], c, b, "");
        assert Emit(run) + (Scan(a[1..], "") + Scan(b, "")) == Emit(run) + Scan(a[1..], "") + Scan(b, "");
      }
    }
  }

  /** A character that is not a word character cuts the text into independently tokenized parts. */
  lemma TokenizeSeparated(a: string, c: char, b: string)
    requires !IsWordChar(c)
    ensures Tokenize(a + [c] + b) == Tokenize(a) + Tokenize(b)
  {
    ScanSeparated(a, c, b, "");
  }

  /** The tokens of each field in turn. */
  function FieldTokens(fields: seq<string>): seq<string> {
    if |fields| == 0 then [] else Tokenize(fields[0]) + FieldTokens(fields[1..])
  }

  lemma {:induction false} TokenizeJoin(fields: seq<string>)
    ensures Tokenize(Join(fields, ' ')) == FieldTokens(fields)
  {
    if |fields| == 1 {
      assert FieldTokens(fields[1..]) == [];
      assert Tokenize(fields[0]) + [] == Tokenize(fields[0]);
    } else if |fields| > 1 {
      TokenizeSeparated(fields[0], ' ', Join(fields[1..], ' '));
      TokenizeJoin(fields[1..]);
    }
  }

  /**
   * The tokens of a profile are the tokens of its nine fields in order: an empty field
   * adds no token, so an empty cell weighs nothing in any score.
   */
  lemma ProfileTokens(p: Perfume)
    ensures Tokenize(Profile(p)) == FieldTokens(ProfileFields(p))
  {
    TokenizeJoin(ProfileFields(p));
  }

  /**
   * A profile whose family is one word of at least two word characters has a token:
   * that word, lower-cased.
   */
  lemma FamilyToken(p: Perfume)
    requires |p.family| >= 2 && forall i :: 0 <= i < |p.family| ==> IsWordChar(p.family[i])
    ensures LowerAll(p.family) in Tokenize(Profile(p))
  {
    var s := Profile(p);
    var n := |p.family|;
    assert s == p.family + [' '] + s[n + 1..];
    TokenizeSeparated(p.family, ' ', s[n + 1..]);
    WordTokens(p.family);
  }

  lemma {:induction false} FieldTokensOfEmpty(fields: seq<string>)
    requires forall k :: 0 <= k < |fields| ==> fields[k] == ""
    ensures FieldTokens(fields) == []
  {
    if |fields| > 0 {
      FieldTokensOfEmpty(fields[1..]);
    }
  }

  /** A perfume whose profile cells are all empty has no token at all. */
  lemma EmptyProfileHasNoTokens(p: Perfume)
    requires forall k :: 0 <= k < 9 ==> ProfileFields(p)[k] == ""
    ensures Tokenize(Profile(p)) == []
  {
    ProfileTokens(p);
    FieldTokensOfEmpty(ProfileFields(p));
  }

  // ---------------------------------------------------------------------------------
  // Fitting: the vocabulary (sorted, as `CountVectorizer` sorts its features) and the
  // count matrix, one row per document in document order.
  // ---------------------------------------------------------------------------------

  function AllTokens(docs: seq<string>): seq<string> {
    if |docs| == 0 then [] else Tokenize(docs[0]) + AllTokens(docs[1..])
  }

  /** The corpus's tokens are exactly the tokens of its documents. */
  lemma {:induction false} AllTokensSpec(docs: seq<string>)
    ensures forall t :: t in AllTokens(docs) <==> exists i :: 0 <= i < |docs| && t in Tokenize(docs[i])
  {
    if |docs| > 0 {
      AllTokensSpec(docs[1..]);
      forall t | t in AllTokens(docs) ensures exists i :: 0 <= i < |docs| && t in Tokenize(docs[i]) {
        if t !in Tokenize(docs[0]) {
          assert t in AllTokens(docs[1..]);
          var i :| 0 <= i < |docs| - 1 && t in Tokenize(docs[1..][i]);
          assert docs[1..][i] == docs[i + 1];
        }
      }
      forall t | exists i :: 0 <= i < |docs| && t in Tokenize(docs[i]) ensures t in AllTokens(docs) {
        var i :| 0 <= i < |docs| && t in Tokenize(docs[i]);
        if i > 0 {
          assert docs[1..][i - 1] == docs[i];
        }
      }
    }
  }

  /**
   * The fitted vocabulary: sorted without repeats, and holding exactly the tokens that
   * occur in some document.
   */
  function Terms(docs: seq<string>): (r: seq<string>)
    ensures StrictlySorted(r)
    ensures forall t :: t in r <==> exists i :: 0 <= i < |docs| && t in Tokenize(docs[i])
  {
    AllTokensSpec(docs);
    SortedUnique(AllTokens(docs))
  }

  /** How often `t` occurs in `ts`. */
  function Count(ts: seq<string>, t: string): (r: nat)
    ensures r == multiset(ts)[t]
  {
    if |ts| == 0 then 0
    else
      assert ts == [ts[0]] + ts[1..];
      (if ts[0] == t then 1 else 0) + Count(ts[1..], t)
  }

  /** The count of each term, in vocabulary order: entry k is how often term k occurs. */
  function CountVector(ts: seq<string>, terms: seq<string>): (r: seq<nat>)
    ensures |r| == |terms|
    ensures forall k :: 0 <= k < |terms| ==> r[k] == multiset(ts)[terms[k]]
  {
    if |terms| == 0 then []
    else
      var rest := CountVector(ts, terms[1..]);
      assert forall k :: 1 <= k < |terms| ==> terms[1..][k - 1] == terms[k];
      [Count(ts, terms[0])] + rest
  }

  /**
   * `X = fit_transform(profiles)` once the vocabulary is fitted: one row per document,
   * one column per term, entry (i, k) the number of times term k occurs in document i.
   */
  function CountMatrix(docs: seq<string>): (r: seq<seq<nat>>)
    ensures |r| == |docs|
    ensures forall i :: 0 <= i < |docs| ==> |r[i]| == |Terms(docs)|
    ensures forall i, k :: 0 <= i < |docs| && 0 <= k < |Terms(docs)| ==>
              r[i][k] == multiset(Tokenize(docs[i]))[Terms(docs)[k]]
  {
    var terms := Terms(docs);
    seq(|docs|, i requires 0 <= i < |docs| => CountVector(Tokenize(docs[i]), terms))
  }

  /** The vocabulary is empty exactly when no document has a token. */
  lemma EmptyVocabulary(docs: seq<string>)
    ensures Terms(docs) == [] <==> forall i :: 0 <= i < |docs| ==> Tokenize(docs[i]) == []
  {
    forall i | 0 <= i < |docs| && Tokenize(docs[i]) != [] ensures Terms(docs) != [] {
      assert Tokenize(docs[i])[0] in Terms(docs);
    }
    if Terms(docs) != [] {
      assert Terms(docs)[0] in Terms(docs);
    }
  }

  /** The error `fit_transform` raises when no document has a token. */
  const EmptyVocabularyError := "empty vocabulary; perhaps the documents only contain stop words"

  /**
   * `fit_transform`: it fails, stopping the page, exactly when no document has a token
   * (an empty catalog included); otherwise it gives the count matrix over a non-empty
   * vocabulary.
   */
  function FitTransform(docs: seq<string>): (r: Result<seq<seq<nat>>, string>)
    ensures r.Failure? <==> forall i :: 0 <= i < |docs| ==> Tokenize(docs[i]) == []
    ensures r.Failure? ==> r.error == EmptyVocabularyError
    ensures r.Success? ==> |Terms(docs)| > 0 && r.value == CountMatrix(docs)
  {
    EmptyVocabulary(docs);
    if Terms(docs) == [] then Failure(EmptyVocabularyError) else Success(CountMatrix(docs))
  }

  /** Every token of every document is a term of the fitted vocabulary, which is sorted. */
  lemma TermsCover(docs: seq<string>, i: nat, t: string)
    requires i < |docs| && t in Tokenize(docs[i])
    ensures t in Terms(docs) && StrictlySorted(Terms(docs))
  {
  }

  function Sum(v: seq<int>): int {
    if |v| == 0 then 0 else v[0] + Sum(v[1..])
  }

  lemma {:induction false} CountVectorOfNone(terms: seq<string>)
    ensures Sum(CountVector([], terms)) == 0
  {
    if |terms| > 0 {
      CountVectorOfNone(terms[1..]);
    }
  }

  lemma {:induction false} CountVectorCons(t: string, ts: seq<string>, terms: seq<string>)
    ensures Sum(CountVector([t] + ts, terms)) == Sum(CountVector(ts, terms)) + Count(terms, t)
  {
    if |terms| > 0 {
      assert ([t] + ts)[1..] == ts;
      CountVectorCons(t, ts, terms[1..]);
    }
  }

  lemma {:induction false} CountOfDistinct(terms: seq<string>, t: string)
    requires forall i, j :: 0 <= i < j < |terms| ==> terms[i] != terms[j]
    ensures Count(terms, t) == if t in terms then 1 else 0
  {
    if |terms| > 0 {
      CountOfDistinct(terms[1..], t);
      if terms[0] == t {
        assert t !in terms[1..];
      }
    }
  }

  /**
   * Over a vocabulary without repeats that holds every token, the counts add up to the
   * number of tokens: each token is counted once, none is lost.
   */
  lemma {:induction false} CountVectorSum(ts: seq<string>, terms: seq<string>)
    requires forall i, j :: 0 <= i < j < |terms| ==> terms[i] != terms[j]
    requires forall k :: 0 <= k < |ts| ==> ts[k] in terms
    ensures Sum(CountVector(ts, terms)) == |ts|
  {
    if |ts| == 0 {
      CountVectorOfNone(terms);
    } else {
      var t, rest := ts[0], ts[1..];
      CountVectorSum(rest, terms);
      CountVectorCons(t, rest, terms);
      CountOfDistinct(terms, t);
      assert [t] + rest == ts;
    }
  }

  /** Row i of the count matrix holds as many counts in all as document i has tokens. */
  lemma CountRowSum(docs: seq<string>, i: nat)
    requires i < |docs|
    ensures Sum(CountMatrix(docs)[i]) == |Tokenize(docs[i])|
  {
    var terms := Terms(docs);
    forall a, b | 0 <= a < b < |terms| ensures terms[a] != terms[b] {
      StrictlySortedDistinct(terms, a, b);
    }
    var ts := Tokenize(docs[i]);
    forall k | 0 <= k < |ts| ensures ts[k] in terms {
      TermsCover(docs, i, ts[k]);
    }
    CountVectorSum(ts, terms);
  }

  // ---------------------------------------------------------------------------------
  // Integer geometry: dot product, squared norm, Cauchy-Schwarz.
  // ---------------------------------------------------------------------------------

  predicate NonNegative(v: seq<int>) {
    forall i :: 0 <= i < |v| ==> v[i] >= 0
  }

  predicate IsZero(v: seq<int>) {
    forall i :: 0 <= i < |v| ==> v[i] == 0
  }

  function Dot(a: seq<int>, b: seq<int>): int
    requires |a| == |b|
  {
    if |a| == 0 then 0 else a[0] * b[0] + Dot(a[1..], b[1..])
  }

  function SqNorm(a: seq<int>): int {
    Dot(a, a)
  }

  lemma {:induction false} DotSymmetric(a: seq<int>, b: seq<int>)
    requires |a| == |b|
    ensures Dot(a, b) == Dot(b, a)
  {
    if |a| > 0 {
      DotSymmetric(a[1..], b[1..]);
    }
  }

  lemma {:induction false} DotNonNegative(a: seq<int>, b: seq<int>)
    requires |a| == |b| && NonNegative(a) && NonNegative(b)
    ensures Dot(a, b) >= 0
  {
    if |a| > 0 {
      DotNonNegative(a[1..], b[1..]);
      assert a[0] * b[0] >= 0;
    }
  }

  lemma {:induction false} DotWithZero(a: seq<int>, b: seq<int>)
    requires |a| == |b| && IsZero(b)
    ensures Dot(a, b) == 0
  {
    if |a| > 0 {
      DotWithZero(a[1..], b[1..]);
    }
  }

  lemma SquareNonNegative(x: int)
    ensures x * x >= 0 && (x * x == 0 <==> x == 0)
  {
    if x < 0 {
      assert x * x == (-x) * (-x);
    }
  }

  /** A squared norm is never negative, and it is 0 exactly for the zero vector. */
  lemma {:induction false} SqNormZero(a: seq<int>)
    ensures SqNorm(a) >= 0
    ensures SqNorm(a) == 0 <==> IsZero(a)
  {
    if |a| > 0 {
      SqNormZero(a[1..]);
      SquareNonNegative(a[0]);
      if IsZero(a[1..]) && a[0] == 0 {
        assert forall i :: 0 < i < |a| ==> a[i] == a[1..][i - 1];
      }
    }
  }

  /** The pointwise combination p·a - q·b. */
  function Combine(a: seq<int>, b: seq<int>, p: int, q: int): (r: seq<int>)
    requires |a| == |b|
    ensures |r| == |a|
  {
    if |a| == 0 then [] else [p * a[0] - q * b[0]] + Combine(a[1..], b[1..], p, q)
  }

  /** The algebra of one step of CombineNorm. */
  lemma CombineStep(p: int, q: int, x: int, y: int, na: int, nb: int, d: int)
    ensures (p * x - q * y) * (p * x - q * y) + (p * p * na - 2 * p * q * d + q * q * nb)
            == p * p * (x * x + na) - 2 * p * q * (x * y + d) + q * q * (y * y + nb)
  {
  }

  lemma {:induction false} CombineNorm(a: seq<int>, b: seq<int>, p: int, q: int)
    requires |a| == |b|
    ensures SqNorm(Combine(a, b, p, q)) == p * p * SqNorm(a) - 2 * p * q * Dot(a, b) + q * q * SqNorm(b)
  {
    if |a| > 0 {
      var x, y := a[0], b[0];
      var rest := Combine(a[1..], b[1..], p, q);
      var c := Combine(a, b, p, q);
      assert c == [p * x - q * y] + rest;
      assert c[1..] == rest;
      CombineNorm(a[1..], b[1..], p, q);
      assert SqNorm(c) == (p * x - q * y) * (p * x - q * y) + SqNorm(rest);
      assert SqNorm(a) == x * x + SqNorm(a[1..]);
      assert SqNorm(b) == y * y + SqNorm(b[1..]);
      assert Dot(a, b) == x * y + Dot(a[1..], b[1..]);
      CombineStep(p, q, x, y, SqNorm(a[1..]), SqNorm(b[1..]), Dot(a[1..], b[1..]));
    }
  }

  lemma PositiveFactor(k: int, x: int)
    requires k > 0 && k * x >= 0
    ensures x >= 0
  {
  }

  /** Cauchy-Schwarz for integer vectors: dot(a,b)^2 <= |a|^2 * |b|^2. */
  lemma CauchySchwarz(a: seq<int>, b: seq<int>)
    requires |a| == |b|
    ensures Dot(a, b) * Dot(a, b) <= SqNorm(a) * SqNorm(b)
  {
    var na, nb, d := SqNorm(a), SqNorm(b), Dot(a, b);
    SqNormZero(a);
    SqNormZero(b);
    if nb == 0 {
      DotWithZero(a, b);
    } else {
      CombineNorm(a, b, nb, d);
      SqNormZero(Combine(a, b, nb, d));
      assert nb * nb * na - 2 * nb * d * d + d * d * nb == nb * (na * nb - d * d);
      PositiveFactor(nb, na * nb - d * d);
    }
  }

  // ---------------------------------------------------------------------------------
  // Cosine similarity.
  // ---------------------------------------------------------------------------------

  /**
   * `s` is the cosine for squared norms `na`, `nb` and dot product `d`: 0 when a norm is
   * 0, and otherwise the real with the sign of `d` whose square times na·nb is d².
   */
  predicate CosineOf(s: real, na: int, nb: int, d: int) {
    if na == 0 || nb == 0 then s == 0.0
    else (s >= 0.0 <==> d >= 0) && s * s * ((na * nb) as real) == (d * d) as real
  }

  /** `s` is the cosine similarity of `a` and `b` (0 when either is the zero vector). */
  predicate IsCosine(s: real, a: seq<int>, b: seq<int>)
    requires |a| == |b|
  {
    CosineOf(s, SqNorm(a), SqNorm(b), Dot(a, b))
  }

  lemma ZeroProduct(u: real, v: real)
    requires v != 0.0 && u * v == 0.0
    ensures u == 0.0
  {
    assert u == (u * v) / v;
  }

  lemma RealSquareRoot(s: real, t: real)
    requires s >= 0.0 && t >= 0.0 && s * s == t * t
    ensures s == t
  {
    if s + t != 0.0 {
      assert (s - t) * (s + t) == s * s - t * t;
      ZeroProduct(s - t, s + t);
    }
  }

  lemma RealCancel(u: real, v: real, n: real)
    requires n != 0.0 && u * n == v * n
    ensures u == v
  {
    assert (u - v) * n == u * n - v * n;
    ZeroProduct(u - v, n);
  }

  lemma UnitBound(s: real, n: real, dd: real)
    requires s >= 0.0 && n > 0.0 && s * s * n == dd && dd <= n
    ensures s <= 1.0
  {
  }

  lemma CosineOfRange(s: real, na: int, nb: int, d: int)
    requires na >= 0 && nb >= 0 && d >= 0 && d * d <= na * nb
    requires CosineOf(s, na, nb, d)
    ensures 0.0 <= s <= 1.0
  {
    if na != 0 && nb != 0 {
      var n := (na * nb) as real;
      assert n > 0.0 by { assert na * nb > 0; }
      assert (d * d) as real <= n;
      UnitBound(s, n, (d * d) as real);
    }
  }

  lemma CosineOfUnique(s: real, t: real, na: int, nb: int, d: int)
    requires na >= 0 && nb >= 0
    requires CosineOf(s, na, nb, d) && CosineOf(t, na, nb, d)
    ensures s == t
  {
    if na != 0 && nb != 0 {
      var n := (na * nb) as real;
      assert n > 0.0 by { assert na * nb > 0; }
      RealCancel(s * s, t * t, n);
      if d >= 0 {
        RealSquareRoot(s, t);
      } else {
        assert (-s) * (-s) == s * s && (-t) * (-t) == t * t;
        RealSquareRoot(-s, -t);
      }
    }
  }

  lemma CosineOfSelf(s: real, n: int)
    requires n > 0 && CosineOf(s, n, n, n)
    ensures s == 1.0
  {
    var k := (n * n) as real;
    assert k > 0.0 by { assert n * n > 0; }
    assert s * s * k == 1.0 * k;
    RealCancel(s * s, 1.0, k);
    RealSquareRoot(s, 1.0);
  }

  /** Cosines of count vectors lie in [0, 1]. */
  lemma CosineRange(s: real, a: seq<int>, b: seq<int>)
    requires |a| == |b| && NonNegative(a) && NonNegative(b) && IsCosine(s, a, b)
    ensures 0.0 <= s <= 1.0
  {
    SqNormZero(a);
    SqNormZero(b);
    DotNonNegative(a, b);
    CauchySchwarz(a, b);
    CosineOfRange(s, SqNorm(a), SqNorm(b), Dot(a, b));
  }

  /** The cosine of `a` and `b` is the cosine of `b` and `a`. */
  lemma CosineSymmetric(s: real, a: seq<int>, b: seq<int>)
    requires |a| == |b|
    ensures IsCosine(s, a, b) <==> IsCosine(s, b, a)
  {
    DotSymmetric(a, b);
    assert SqNorm(a) * SqNorm(b) == SqNorm(b) * SqNorm(a);
  }

  /** Two vectors have one cosine only. */
  lemma CosineUnique(s: real, t: real, a: seq<int>, b: seq<int>)
    requires |a| == |b| && IsCosine(s, a, b) && IsCosine(t, a, b)
    ensures s == t
  {
    SqNormZero(a);
    SqNormZero(b);
    CosineOfUnique(s, t, SqNorm(a), SqNorm(b), Dot(a, b));
  }

  /** A vector's cosine with itself is 1, or 0 for the zero vector. */
  lemma CosineSelf(s: real, a: seq<int>)
    requires IsCosine(s, a, a)
    ensures s == if IsZero(a) then 0.0 else 1.0
  {
    SqNormZero(a);
    if SqNorm(a) != 0 {
      assert SqNorm(a) == Dot(a, a);
      CosineOfSelf(s, SqNorm(a));
    }
  }

  /** Every row of `x` has `dim` entries. */
  predicate Rectangular(x: seq<seq<int>>, dim: nat) {
    forall i :: 0 <= i < |x| ==> |x[i]| == dim
  }

  /** `similarity = cosine_similarity(X)`: entry (i, j) is the cosine of rows i and j. */
  predicate IsSimilarity(sim: seq<seq<real>>, x: seq<seq<int>>, dim: nat) {
    && Rectangular(x, dim)
    && |sim| == |x|
    && (forall i :: 0 <= i < |x| ==> |sim[i]| == |x|)
    && forall i, j :: 0 <= i < |x| && 0 <= j < |x| ==> IsCosine(sim[i][j], x[i], x[j])
  }

  /**
   * The similarity matrix of non-negative vectors is symmetric, its entries lie in
   * [0, 1], and its diagonal is 1 except for zero rows, where it is 0.
   */
  lemma SimilaritySpec(sim: seq<seq<real>>, x: seq<seq<int>>, dim: nat, i: nat, j: nat)
    requires IsSimilarity(sim, x, dim)
    requires forall k :: 0 <= k < |x| ==> NonNegative(x[k])
    requires i < |x| && j < |x|
    ensures sim[i][j] == sim[j][i]
    ensures 0.0 <= sim[i][j] <= 1.0
    ensures sim[i][i] == if IsZero(x[i]) then 0.0 else 1.0
  {
    CosineSymmetric(sim[j][i], x[j], x[i]);
    CosineUnique(sim[i][j], sim[j][i], x[i], x[j]);
    CosineRange(sim[i][j], x[i], x[j]);
    CosineSelf(sim[i][i], x[i]);
  }

  lemma {:induction false} SumZero(v: seq<int>)
    requires NonNegative(v)
    ensures Sum(v) >= 0 && (Sum(v) == 0 <==> IsZero(v))
  {
    if |v| > 0 {
      SumZero(v[1..]);
      if IsZero(v[1..]) && v[0] == 0 {
        assert forall i :: 0 < i < |v| ==> v[i] == v[1..][i - 1];
      }
    }
  }

  /**
   * For the catalog's own profiles: the self-similarity of perfume i is 1 when its
   * profile has a token and 0 when it has none, in which case it scores 0 against every
   * perfume.
   */
  lemma CatalogSimilarity(docs: seq<string>, sim: seq<seq<real>>, i: nat)
    requires IsSimilarity(sim, CountMatrix(docs), |Terms(docs)|)
    requires i < |docs|
    ensures sim[i][i] == if Tokenize(docs[i]) == [] then 0.0 else 1.0
    ensures Tokenize(docs[i]) == [] ==> forall j :: 0 <= j < |docs| ==> sim[i][j] == 0.0
  {
    var x: seq<seq<int>> := CountMatrix(docs);
    CountRowSum(docs, i);
    SumZero(x[i]);
    assert forall k :: 0 <= k < |x| ==> NonNegative(x[k]);
    SimilaritySpec(sim, x, |Terms(docs)|, i, i);
    if Tokenize(docs[i]) == [] {
      SqNormZero(x[i]);
      forall j | 0 <= j < |docs| ensures sim[i][j] == 0.0 {
        assert IsCosine(sim[i][j], x[i], x[j]);
      }
    }
  }

  /**
   * On the catalog's own profiles, a perfume whose nine profile cells are all empty
   * scores 0 against every perfume, itself included.
   */
  lemma BlankPerfumeScoresZero(c: Collection, sim: seq<seq<real>>, i: nat)
    requires IsSimilarity(sim, CountMatrix(Profiles(c)), |Terms(Profiles(c))|)
    requires i < |c.perfumes|
    requires forall k :: 0 <= k < 9 ==> ProfileFields(c.perfumes[i])[k] == ""
    ensures forall j :: 0 <= j < |c.perfumes| ==> sim[i][j] == 0.0 && sim[j][i] == 0.0
  {
    var docs := Profiles(c);
    EmptyProfileHasNoTokens(c.perfumes[i]);
    CatalogSimilarity(docs, sim, i);
    var x: seq<seq<int>> := CountMatrix(docs);
    assert forall k :: 0 <= k < |x| ==> NonNegative(x[k]);
    forall j | 0 <= j < |c.perfumes| ensures sim[j][i] == 0.0 {
      SimilaritySpec(sim, x, |Terms(docs)|, i, j);
    }
  }

  /**
   * Two documents with the same text have the same count row, so when that text has a
   * token they score exactly 1.0 against each other.
   */
  lemma TwinsScoreOne(docs: seq<string>, sim: seq<seq<real>>, i: nat, j: nat)
    requires IsSimilarity(sim, CountMatrix(docs), |Terms(docs)|)
    requires i < |docs| && j < |docs| && docs[i] == docs[j] && Tokenize(docs[i]) != []
    ensures sim[i][j] == 1.0
  {
    var x: seq<seq<int>> := CountMatrix(docs);
    assert x[i] == x[j];
    CatalogSimilarity(docs, sim, i);
    assert IsCosine(sim[i][j], x[i], x[j]);
    CosineUnique(sim[i][j], sim[i][i], x[i], x[i]);
  }

  /**
   * When every document has the same text and that text has a token, the matrix of
   * ones is the matrix of cosines: the similarity such a catalog really produces.
   */
  lemma OnesSimilarity(docs: seq<string>, sim: seq<seq<real>>)
    requires |docs| > 0 && Tokenize(docs[0]) != []
    requires forall i :: 0 <= i < |docs| ==> docs[i] == docs[0]
    requires |sim| == |docs| && forall i :: 0 <= i < |sim| ==> |sim[i]| == |docs|
    requires forall i, j :: 0 <= i < |sim| && 0 <= j < |docs| ==> sim[i][j] == 1.0
    ensures IsSimilarity(sim, CountMatrix(docs), |Terms(docs)|)
  {
    var x: seq<seq<int>> := CountMatrix(docs);
    CountRowSum(docs, 0);
    assert NonNegative(x[0]);
    SumZero(x[0]);
    SqNormZero(x[0]);
    var n := SqNorm(x[0]);
    assert 1.0 * 1.0 * ((n * n) as real) == (n * n) as real;
    forall i, j | 0 <= i < |x| && 0 <= j < |x| ensures IsCosine(sim[i][j], x[i], x[j]) {
      assert x[i] == x[0] && x[j] == x[0];
    }
  }
}
