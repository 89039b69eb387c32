/**
 * The breed label the gallery screen derives from a Dog CEO image URL
 * (`.../breeds/<slug>/<file>`): the second-to-last `/`-separated segment,
 * its first hyphen turned into a space, and every space-separated word
 * given an upper-case first character.
 */
module BreedLabel {
  import opened Wrappers
  import opened Text

  /**
   * The breed slug: the second-to-last piece of `url.split('/')`. With fewer
   * than two pieces the source reads `undefined` and throws; that is `None`.
   */
  function BreedSlug(url: string): (slug: Option<string>)
    ensures slug.None? <==> '/' !in url
    ensures slug.Some? ==> '/' !in slug.value
  {
    var parts := Split(url, '/');
    if |parts| < 2 then None
    else
      assert parts[|parts| - 2] in parts;
      Some(parts[|parts| - 2])
  }

  /** Any path whose last two segments are `slug` and `file` yields `slug`. */
  lemma SlugOfPath(dirs: seq<string>, slug: string, file: string)
    requires Separated(dirs + [slug, file], '/')
    ensures BreedSlug(Join(dirs + [slug, file], '/')) == Some(slug)
  {
    var parts := dirs + [slug, file];
    SplitJoin(parts, '/');
    assert parts[|parts| - 2] == slug;
  }

  /** Conversely, every slug found is the second-to-last segment of its URL. */
  lemma SlugIsSecondToLast(url: string)
    requires '/' in url
    ensures exists dirs: seq<string>, file: string ::
              Separated(dirs + [BreedSlug(url).value, file], '/') &&
              url == Join(dirs + [BreedSlug(url).value, file], '/')
  {
    var parts := Split(url, '/');
    var n := |parts|;
    var dirs, file := parts[..n - 2], parts[n - 1];
    assert parts == dirs + [BreedSlug(url).value, file];
    JoinSplit(url, '/');
  }

  /** `word.charAt(0).toUpperCase() + word.slice(1)`; the empty word stays empty. */
  function CapitalizeWord(w: string): (r: string)
    ensures |r| == |w|
    ensures |w| > 0 ==> r[0] == UpperAscii(w[0])
    ensures forall k :: 0 < k < |w| ==> r[k] == w[k]
  {
    if |w| == 0 then "" else [UpperAscii(w[0])] + w[1..]
  }

  /**
   * `words.map(CapitalizeWord)`: one capitalised word per word, in order;
   * capitalising never puts a space into a word that had none.
   */
  function CapitalizeEach(words: seq<string>): (caps: seq<string>)
    ensures |caps| == |words|
    ensures forall i :: 0 <= i < |words| ==> caps[i] == CapitalizeWord(words[i])
    ensures Separated(words, ' ') ==> Separated(caps, ' ')
  {
    var caps := seq(|words|, i requires 0 <= i < |words| => CapitalizeWord(words[i]));
    assert Separated(words, ' ') ==> Separated(caps, ' ') by {
      if Separated(words, ' ') {
        forall p | p in caps ensures ' ' !in p {
          var j :| 0 <= j < |caps| && caps[j] == p;
          assert words[j] in words;
          if |p| > 0 {
            UpperAsciiFixes(words[j][0], ' ');
          }
        }
      }
    }
    caps
  }

  /**
   * `s.split(' ').map(CapitalizeWord).join(' ')`: as many spaces as the
   * input, hence as many words.
   */
  function CapitalizeWords(s: string): (r: string)
    ensures Count(r, ' ') == Count(s, ' ')
  {
    Join(CapitalizeEach(Split(s, ' ')), ' ')
  }

  /**
   * Reference definition of the same transform, one character at a time:
   * a character is upper-cased exactly when it starts a word, that is when
   * it comes first or right after a space.
   */
  function CapitalizeFrom(s: string, atWordStart: bool): (r: string)
    ensures |r| == |s|
  {
    if |s| == 0 then ""
    else [if atWordStart then UpperAscii(s[0]) else s[0]] + CapitalizeFrom(s[1..], s[0] == ' ')
  }

  /** Inside a word (no space) nothing changes. */
  lemma {:induction false} InsideWordUnchanged(v: string, rest: string)
    requires ' ' !in v
    ensures CapitalizeFrom(v, false) == v
    ensures CapitalizeFrom(v + [' '] + rest, false) == v + [' '] + CapitalizeFrom(rest, true)
    decreases |v|
  {
    if |v| > 0 {
      assert ' ' !in v[1..];
      InsideWordUnchanged(v[1..], rest);
      assert (v + [' '] + rest)[1..] == v[1..] + [' '] + rest;
      assert [v[0]] + v[1..] == v;
    } else {
      assert ([' '] + rest)[1..] == rest;
    }
  }

  /** The reference transform handles a whole word, then the space, then the rest. */
  lemma WordThenRest(w: string, rest: string)
    requires ' ' !in w
    ensures CapitalizeFrom(w, true) == CapitalizeWord(w)
    ensures CapitalizeFrom(w + [' '] + rest, true) == CapitalizeWord(w) + [' '] + CapitalizeFrom(rest, true)
  {
    if |w| > 0 {
      assert ' ' !in w[1..];
      InsideWordUnchanged(w[1..], rest);
      assert (w + [' '] + rest)[1..] == w[1..] + [' '] + rest;
    } else {
      assert ([' '] + rest)[1..] == rest;
    }
  }

  /** A text with no space is one word. */
  lemma CapitalizeOneWord(w: string)
    requires ' ' !in w
    ensures CapitalizeWords(w) == CapitalizeWord(w)
  {
    SplitUnseparated(w, ' ');
    assert CapitalizeEach([w]) == [CapitalizeWord(w)];
  }

  /** The first word is capitalised on its own and the rest after the space independently. */
  lemma CapitalizeFirstWord(w: string, rest: string)
    requires ' ' !in w
    ensures CapitalizeWords(w + [' '] + rest) == CapitalizeWord(w) + [' '] + CapitalizeWords(rest)
  {
    SplitAfterFirst(w, rest, ' ');
    var words := Split(rest, ' ');
    var caps := CapitalizeEach([w] + words);
    assert caps[1..] == CapitalizeEach(words) by {
      forall i | 0 <= i < |words| ensures caps[1..][i] == CapitalizeEach(words)[i] {
        assert ([w] + words)[i + 1] == words[i];
      }
    }
    assert caps == [CapitalizeWord(w)] + caps[1..];
    JoinCons(CapitalizeWord(w), CapitalizeEach(words), ' ');
  }

  /** The split/map/join chain equals the character-at-a-time reference. */
  lemma {:induction false} CapitalizeWordsIsReference(s: string)
    ensures CapitalizeWords(s) == CapitalizeFrom(s, true)
    decreases |s|
  {
    if ' ' !in s {
      CapitalizeOneWord(s);
      WordThenRest(s, "");
    } else {
      var i := IndexOf(s, ' ');
      var w, rest := s[..i], s[i + 1..];
      assert s == w + [' '] + rest;
      CapitalizeFirstWord(w, rest);
      CapitalizeWordsIsReference(rest);
      WordThenRest(w, rest);
    }
  }

  /** What the reference transform does at each position. */
  lemma {:induction false} CapitalizeFromAt(s: string, atWordStart: bool, i: nat)
    requires i < |s|
    ensures CapitalizeFrom(s, atWordStart)[i]
            == if (if i == 0 then atWordStart else s[i - 1] == ' ') then UpperAscii(s[i]) else s[i]
    decreases i
  {
    if i > 0 {
      CapitalizeFromAt(s[1..], s[0] == ' ', i - 1);
    }
  }

  /**
   * The capitalised text has the length of the original; a character is
   * upper-cased exactly when it is first or follows a space, and every other
   * character is kept. In particular spaces stay where they were.
   */
  lemma CapitalizeWordsAt(s: string)
    ensures |CapitalizeWords(s)| == |s|
    ensures forall i :: 0 <= i < |s| ==>
              CapitalizeWords(s)[i] == if i == 0 || s[i - 1] == ' ' then UpperAscii(s[i]) else s[i]
    ensures forall i :: 0 <= i < |s| ==> (CapitalizeWords(s)[i] == ' ' <==> s[i] == ' ')
  {
    CapitalizeWordsIsReference(s);
    forall i | 0 <= i < |s|
      ensures CapitalizeWords(s)[i] == if i == 0 || s[i - 1] == ' ' then UpperAscii(s[i]) else s[i]
      ensures CapitalizeWords(s)[i] == ' ' <==> s[i] == ' '
    {
      CapitalizeFromAt(s, true, i);
      UpperAsciiFixes(s[i], ' ');
    }
  }

  /** Capitalising an already capitalised text changes nothing. */
  lemma CapitalizeWordsIdempotent(s: string)
    ensures CapitalizeWords(CapitalizeWords(s)) == CapitalizeWords(s)
  {
    var r := CapitalizeWords(s);
    CapitalizeWordsAt(s);
    CapitalizeWordsAt(r);
    forall i | 0 <= i < |s| ensures CapitalizeWords(r)[i] == r[i] {
      UpperAsciiIdempotent(s[i]);
      assert i > 0 ==> (r[i - 1] == ' ' <==> s[i - 1] == ' ');
    }
  }

  /**
   * The words of the result are the capitalised words of the input: as many
   * words, in the same order, each with only its first character changed.
   */
  lemma CapitalizeWordsWords(s: string)
    ensures Split(CapitalizeWords(s), ' ') == CapitalizeEach(Split(s, ' '))
    ensures |Split(CapitalizeWords(s), ' ')| == |Split(s, ' ')|
  {
    SplitJoin(CapitalizeEach(Split(s, ' ')), ' ');
  }

  /**
   * The label text: first hyphen to a space, then every word capitalised.
   * It is as long as the slug and has exactly one hyphen fewer when the slug
   * has one, the same number otherwise.
   */
  function FormatBreed(slug: string): (name: string)
    ensures |name| == |slug|
    ensures Count(name, '-') == if '-' in slug then Count(slug, '-') - 1 else Count(slug, '-')
  {
    var replaced := ReplaceFirst(slug, '-', ' ');
    CapitalizingKeepsHyphens(replaced);
    ReplaceFirstCount(slug, '-', ' ');
    CapitalizeWords(replaced)
  }

  /**
   * The label is as long as the slug, has a space where the slug's first
   * hyphen was, and keeps every later hyphen: one hyphen fewer when the slug
   * has one, none fewer otherwise.
   */
  lemma FormatBreedHyphens(slug: string)
    ensures |FormatBreed(slug)| == |slug|
    ensures '-' in slug ==> FormatBreed(slug)[IndexOf(slug, '-')] == ' '
    ensures Count(FormatBreed(slug), '-')
            == if '-' in slug then Count(slug, '-') - 1 else Count(slug, '-')
  {
    var replaced := ReplaceFirst(slug, '-', ' ');
    CapitalizingKeepsHyphens(replaced);
    ReplaceFirstCount(slug, '-', ' ');
    if '-' in slug {
      ReplaceFirstAt(slug, '-', ' ');
      var i := IndexOf(slug, '-');
      assert replaced[i] == ' ';
    }
  }

  /** Capitalising neither adds nor removes hyphens, and keeps spaces in place. */
  lemma CapitalizingKeepsHyphens(s: string)
    ensures |CapitalizeWords(s)| == |s|
    ensures Count(CapitalizeWords(s), '-') == Count(s, '-')
    ensures forall i :: 0 <= i < |s| ==> (CapitalizeWords(s)[i] == ' ' <==> s[i] == ' ')
  {
    CapitalizeWordsAt(s);
    forall i | 0 <= i < |s| ensures CapitalizeWords(s)[i] == '-' <==> s[i] == '-' {
      assert CapitalizeWords(s)[i] == if i == 0 || s[i - 1] == ' ' then UpperAscii(s[i]) else s[i];
      UpperAsciiFixes(s[i], '-');
    }
    CountSamePlaces(CapitalizeWords(s), s, '-');
  }

  /** The label shown for an image URL, or `None` where the source throws. */
  function Label(url: string): (name: Option<string>)
    ensures name.None? <==> '/' !in url
  {
    match BreedSlug(url)
    case None => None
    case Some(slug) => Some(FormatBreed(slug))
  }

  /** The label of a URL is the formatted second-to-last segment, as long as that segment. */
  lemma LabelOfPath(dirs: seq<string>, slug: string, file: string)
    requires Separated(dirs + [slug, file], '/')
    ensures Label(Join(dirs + [slug, file], '/')) == Some(FormatBreed(slug))
    ensures |FormatBreed(slug)| == |slug|
  {
    SlugOfPath(dirs, slug, file);
    FormatBreedHyphens(slug);
  }

  /** A one-word slug is only capitalised. */
  lemma FormatPoodle()
    ensures FormatBreed("poodle") == "Poodle"
  {
    assert ReplaceFirst("poodle", '-', ' ') == "poodle";
    CapitalizeOneWord("poodle");
    assert CapitalizeWord("poodle") == "Poodle";
  }

  /**
   * A slug of two words joined by a hyphen reads as the two words, each
   * capitalised, with a space between them; a later hyphen stays in the second.
   */
  lemma FormatTwoWords(a: string, b: string)
    requires '-' !in a && ' ' !in a && ' ' !in b
    ensures FormatBreed(a + ['-'] + b) == CapitalizeWord(a) + [' '] + CapitalizeWord(b)
  {
    ReplaceFirstAfter(a, b, '-', ' ');
    CapitalizeFirstWord(a, b);
    CapitalizeOneWord(b);
  }

  /**
   * The first hyphen becomes a space and both words are capitalised.
   * The words are parameters fixed by the precondition only so that the
   * verifier does not unfold the literals character by character.
   */
  lemma FormatHoundAfghan(first: string, rest: string)
    requires first == "hound" && rest == "afghan"
    ensures FormatBreed(first + "-" + rest) == "Hound Afghan"
  {
    FormatTwoWords(first, rest);
    CapitalizeHoundAfghan(first, rest);
  }

  /** The two words of that slug, capitalised and rejoined with a space (parameters as above). */
  lemma CapitalizeHoundAfghan(first: string, rest: string)
    requires first == "hound" && rest == "afghan"
    ensures CapitalizeWord(first) + " " + CapitalizeWord(rest) == "Hound Afghan"
  {
    assert first[0] == 'h' && first[1..] == "ound";
    assert rest[0] == 'a' && rest[1..] == "fghan";
  }

  /**
   * Only the first hyphen becomes a space; the second survives inside the
   * last word. The words are parameters fixed by the precondition only so
   * that the verifier does not unfold the literals character by character.
   */
  lemma FormatEnglishCockerSpaniel(first: string, rest: string)
    requires first == "english" && rest == "cocker-spaniel"
    ensures FormatBreed(first + "-" + rest) == "English Cocker-spaniel"
  {
    FormatTwoWords(first, rest);
    CapitalizeEnglishCockerSpaniel(first, rest);
  }

  /** The two words of that slug, capitalised and rejoined with a space (parameters as above). */
  lemma CapitalizeEnglishCockerSpaniel(first: string, rest: string)
    requires first == "english" && rest == "cocker-spaniel"
    ensures CapitalizeWord(first) + " " + CapitalizeWord(rest) == "English Cocker-spaniel"
  {
    assert first[0] == 'e' && first[1..] == "nglish";
    assert rest[0] == 'c' && rest[1..] == "ocker-spaniel";
  }

  /**
   * The label of the Dog CEO URL `https://images.dog.ceo/breeds/poodle/n456.jpg`,
   * given by its `/`-separated segments; its last segment alone has no `/`
   * and so no label, as the source throws there. The segments are a
   * parameter fixed by the precondition only so that the verifier does not
   * unfold the literal URL character by character.
   */
  lemma LabelOfPoodleUrl(segments: seq<string>)
    requires segments == ["https:", "", "images.dog.ceo", "breeds", "poodle", "n456.jpg"]
    ensures Label(Join(segments, '/')) == Some("Poodle")
    ensures Label(segments[5]) == None
  {
    var dirs := segments[..4];
    assert segments == dirs + ["poodle", "n456.jpg"];
    assert Separated(segments, '/');
    LabelOfPath(dirs, "poodle", "n456.jpg");
    FormatPoodle();
  }
}
