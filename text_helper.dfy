/**
 * Text helpers of the web client (src/lib/helpers/TextHelper.ts): trimming and lower-casing,
 * stripping Czech diacritics through a fixed per-character table, and keeping only letters.
 */
module TextHelper {
  import opened Wrappers

  /**
   * The lookup `diacriticsMap[char]` in the fifteen-entry table: the base letter of a lower-case
   * Czech letter with a diacritic, None for every other character.
   */
  function Lookup(c: char): (r: Option<char>)
    ensures r.Some? ==> 'a' <= r.value <= 'z' && 'á' <= c <= 'ž'
    ensures 'a' <= c <= 'z' ==> r == None
  {
    match c
    case 'á' => Some('a')
    case 'č' => Some('c')
    case 'ď' => Some('d')
    case 'é' => Some('e')
    case 'ě' => Some('e')
    case 'í' => Some('i')
    case 'ň' => Some('n')
    case 'ó' => Some('o')
    case 'ř' => Some('r')
    case 'š' => Some('s')
    case 'ť' => Some('t')
    case 'ú' => Some('u')
    case 'ů' => Some('u')
    case 'ý' => Some('y')
    case 'ž' => Some('z')
    case _ => None
  }

  /** A key of the table is one of the fifteen letters. */
  predicate IsKey(c: char)
  {
    Lookup(c).Some?
  }

  /** The keys are exactly the fifteen letters, and no key and no replacement is white space. */
  lemma DiacriticsTable(c: char)
    ensures IsKey(c) <==> c in "áčďéěíňóřšťúůýž"
    ensures IsKey(c) ==> !IsJsSpace(c) && !IsJsSpace(Lookup(c).value)
  {
    var keys := "áčďéěíňóřšťúůýž";
    if c in keys {
      var i :| 0 <= i < |keys| && keys[i] == c;
      assert 0 <= i < 15;
    }
  }

  // ---------------------------------------------------------------------------------------------
  // Trimming

  /**
   * The characters JavaScript's `String.prototype.trim` removes: the WhiteSpace and
   * LineTerminator code points of section 12.2 and 12.3 of ECMA-262.
   */
  predicate IsJsSpace(c: char)
  {
    c == '\t' || c == '\n' || c == '\U{000B}' || c == '\U{000C}' || c == '\r' || c == ' ' ||
    c == '\U{00A0}' || c == '\U{1680}' || ('\U{2000}' <= c <= '\U{200A}') ||
    c == '\U{2028}' || c == '\U{2029}' || c == '\U{202F}' || c == '\U{205F}' ||
    c == '\U{3000}' || c == '\U{FEFF}'
  }

  /** `s` with its leading white space removed. */
  function TrimStart(s: string): (r: string)
    ensures |r| <= |s| && r == s[|s| - |r|..]
    ensures forall k :: 0 <= k < |s| - |r| ==> IsJsSpace(s[k])
    ensures |r| > 0 ==> !IsJsSpace(r[0])
  {
    if |s| > 0 && IsJsSpace(s[0]) then TrimStart(s[1..]) else s
  }

  /** `s` with its trailing white space removed. */
  function TrimEnd(s: string): (r: string)
    ensures |r| <= |s| && r == s[..|r|]
    ensures forall k :: |r| <= k < |s| ==> IsJsSpace(s[k])
    ensures |r| > 0 ==> !IsJsSpace(r[|r| - 1])
  {
    if |s| > 0 && IsJsSpace(s[|s| - 1]) then TrimEnd(s[..|s| - 1]) else s
  }

  /** `String.prototype.trim`. */
  function Trim(s: string): string
  {
    TrimEnd(TrimStart(s))
  }

  /**
   * Trimming keeps one contiguous stretch of the input, and everything cut off on either side is
   * white space.
   */
  lemma TrimShape(s: string)
    ensures exists i, j ::
      (&& 0 <= i <= j <= |s| && Trim(s) == s[i..j]
       && (forall k :: 0 <= k < i ==> IsJsSpace(s[k]))
       && (forall k :: j <= k < |s| ==> IsJsSpace(s[k])))
  {
    var t := TrimStart(s);
    var i := |s| - |t|;
    assert t == s[i..];
    var j := TrimEndOfSuffix(s, i);
    assert Trim(s) == s[i..j];
    assert forall k :: 0 <= k < i ==> IsJsSpace(s[k]);
  }

  /** `TrimEnd` of the suffix from `i` is a slice from `i`, and all after that slice is white space. */
  lemma TrimEndOfSuffix(s: string, i: nat) returns (j: nat)
    requires i <= |s|
    ensures i <= j <= |s| && TrimEnd(s[i..]) == s[i..j]
    ensures forall k :: j <= k < |s| ==> IsJsSpace(s[k])
  {
    var t := s[i..];
    var r := TrimEnd(t);
    j := i + |r|;
    assert r == t[..|r|];
    forall k | j <= k < |s|
      ensures IsJsSpace(s[k])
    {
      assert s[k] == t[k - i];
    }
  }

  /** The trimmed text neither starts nor ends with white space. */
  lemma TrimEnds(s: string)
    ensures var r := Trim(s);
      |r| > 0 ==> !IsJsSpace(r[0]) && !IsJsSpace(r[|r| - 1])
  {
    var t := TrimStart(s);
    var r := TrimEnd(t);
    assert Trim(s) == r;
    if |r| > 0 {
      assert !IsJsSpace(t[0]);
      assert r[0] == t[0];
      assert !IsJsSpace(r[0]);
      assert !IsJsSpace(r[|r| - 1]);
    }
  }

  /** Trimming twice is trimming once. */
  lemma TrimIdempotent(s: string)
    ensures Trim(Trim(s)) == Trim(s)
  {
    var r := Trim(s);
    TrimEnds(s);
    if |r| > 0 {
      assert TrimStart(r) == r;
    } else {
      assert TrimStart(r) == r;
    }
  }

  // ---------------------------------------------------------------------------------------------
  // Formatting and diacritics

  /** `removeFormating`: trim, then lower-case; `toLowerCase` (the Unicode mapping) is `lower`. */
  function RemoveFormating(s: string, lower: string -> string): string
  {
    lower(Trim(s))
  }

  /** The replacement of one character (`diacriticsMap[char] || char`): its base letter when it is a key, else itself. */
  function BaseLetter(c: char): (b: char)
    ensures IsKey(c) ==> b == Lookup(c).value
    ensures !IsKey(c) ==> b == c
    ensures !IsKey(b)
  {
    match Lookup(c)
    case Some(base) => base
    case None => c
  }

  /** The `split('').map(...).join('')` step: each character replaced by its base letter. */
  function StripDiacritics(s: string): (r: string)
    ensures |r| == |s|
  {
    seq(|s|, i requires 0 <= i < |s| => BaseLetter(s[i]))
  }

  /** `replaceCzechDiacriticsAndNormalize`: the replacement applied to the formatted input. */
  function ReplaceCzechDiacriticsAndNormalize(input: string, lower: string -> string): (r: string)
    ensures |r| == |RemoveFormating(input, lower)|
  {
    StripDiacritics(RemoveFormating(input, lower))
  }

  /**
   * The replacement works character by character: each of the fifteen keys becomes its base letter,
   * every other character is kept, and no key is left in the result.
   */
  lemma StripDiacriticsPointwise(s: string)
    ensures forall i :: 0 <= i < |s| && IsKey(s[i]) ==> StripDiacritics(s)[i] == Lookup(s[i]).value
    ensures forall i :: 0 <= i < |s| && !IsKey(s[i]) ==> StripDiacritics(s)[i] == s[i]
    ensures forall i :: 0 <= i < |s| ==> !IsKey(StripDiacritics(s)[i])
  {
  }

  /** Replacing a second time changes nothing. */
  lemma StripDiacriticsIdempotent(s: string)
    ensures StripDiacritics(StripDiacritics(s)) == StripDiacritics(s)
  {
    var r := StripDiacritics(s);
    assert forall i :: 0 <= i < |r| ==> BaseLetter(r[i]) == r[i];
  }

  /**
   * No key is left in the normalised text, so replacing once more leaves it as it is; its length is
   * that of the trimmed, lower-cased input.
   */
  lemma NormalizeOutputHasNoKeys(input: string, lower: string -> string)
    ensures var r := ReplaceCzechDiacriticsAndNormalize(input, lower);
      && |r| == |lower(Trim(input))|
      && (forall i :: 0 <= i < |r| ==> !IsKey(r[i]))
      && StripDiacritics(r) == r
  {
    StripDiacriticsIdempotent(lower(Trim(input)));
  }

  /**
   * No key and no replacement is white space, so replacing before or after trimming gives the same
   * string; the replacement therefore never changes what `trim` removes.
   */
  lemma StripCommutesWithTrim(s: string)
    ensures StripDiacritics(Trim(s)) == Trim(StripDiacritics(s))
  {
    StripCommutesWithTrimStart(s);
    StripCommutesWithTrimEnd(TrimStart(s));
  }

  lemma {:induction false} StripCommutesWithTrimStart(s: string)
    ensures StripDiacritics(TrimStart(s)) == TrimStart(StripDiacritics(s))
    decreases |s|
  {
    if |s| > 0 {
      var r := StripDiacritics(s);
      StripFirst(s);
      TrimStartStep(s);
      TrimStartStep(r);
      if IsJsSpace(s[0]) {
        StripCommutesWithTrimStart(s[1..]);
      }
    }
  }

  lemma {:induction false} StripCommutesWithTrimEnd(s: string)
    ensures StripDiacritics(TrimEnd(s)) == TrimEnd(StripDiacritics(s))
    decreases |s|
  {
    if |s| > 0 {
      var r := StripDiacritics(s);
      var n := |s| - 1;
      StripLast(s);
      TrimEndStep(s);
      TrimEndStep(r);
      if IsJsSpace(s[n]) {
        StripCommutesWithTrimEnd(s[..n]);
      }
    }
  }

  /** One step of `trimStart`: a leading space is dropped, otherwise the text is kept. */
  lemma TrimStartStep(s: string)
    requires |s| > 0
    ensures IsJsSpace(s[0]) ==> TrimStart(s) == TrimStart(s[1..])
    ensures !IsJsSpace(s[0]) ==> TrimStart(s) == s
  {
  }

  /** One step of `trimEnd`: a trailing space is dropped, otherwise the text is kept. */
  lemma TrimEndStep(s: string)
    requires |s| > 0
    ensures IsJsSpace(s[|s| - 1]) ==> TrimEnd(s) == TrimEnd(s[..|s| - 1])
    ensures !IsJsSpace(s[|s| - 1]) ==> TrimEnd(s) == s
  {
  }

  /** The replacement of a non-empty text: the first character's replacement, then the rest's. */
  lemma StripFirst(s: string)
    requires |s| > 0
    ensures StripDiacritics(s)[1..] == StripDiacritics(s[1..])
    ensures IsJsSpace(StripDiacritics(s)[0]) == IsJsSpace(s[0])
  {
    assert StripDiacritics(s)[0] == BaseLetter(s[0]);
    DiacriticsTable(s[0]);
  }

  /** The replacement of a non-empty text: the replacement of all but the last, then the last's. */
  lemma StripLast(s: string)
    requires |s| > 0
    ensures StripDiacritics(s)[..|s| - 1] == StripDiacritics(s[..|s| - 1])
    ensures IsJsSpace(StripDiacritics(s)[|s| - 1]) == IsJsSpace(s[|s| - 1])
  {
    assert StripDiacritics(s)[|s| - 1] == BaseLetter(s[|s| - 1]);
    DiacriticsTable(s[|s| - 1]);
  }

  /**
   * The replacement sees the lower-cased text: an upper-case Á is only replaced when `lower` has
   * turned it into á first, since the table alone keeps it.
   */
  lemma UpperCaseNotInTable()
    ensures BaseLetter('Á') == 'Á'
    ensures StripDiacritics("Á") == "Á" && StripDiacritics("á") == "a"
  {
  }

  // ---------------------------------------------------------------------------------------------
  // Letters

  /**
   * `keepOnlyLetters`: removes every code point outside Unicode general category L. Membership in
   * the category is `isLetter`.
   */
  function KeepOnlyLetters(s: string, isLetter: char -> bool): (r: string)
    ensures |r| <= |s|
    ensures forall i :: 0 <= i < |r| ==> isLetter(r[i])
  {
    if |s| == 0 then ""
    else (if isLetter(s[0]) then [s[0]] else "") + KeepOnlyLetters(s[1..], isLetter)
  }

  /**
   * `a` can be obtained from `b` by deleting characters (matching each character of `a` to the
   * first fitting character of `b`, which finds a match whenever there is one).
   */
  predicate IsSubsequence(a: string, b: string)
    decreases |b|
  {
    if |b| == 0 then |a| == 0
    else if |a| > 0 && a[0] == b[0] then IsSubsequence(a[1..], b[1..])
    else IsSubsequence(a, b[1..])
  }

  /** The letters are kept in their original order. */
  lemma {:induction false} KeepOnlyLettersSubsequence(s: string, isLetter: char -> bool)
    ensures IsSubsequence(KeepOnlyLetters(s, isLetter), s)
    decreases |s|
  {
    if |s| > 0 {
      KeepOnlyLettersSubsequence(s[1..], isLetter);
      var rest := KeepOnlyLetters(s[1..], isLetter);
      if isLetter(s[0]) {
        assert ([s[0]] + rest)[1..] == rest;
      } else {
        assert "" + rest == rest;
        assert |rest| > 0 ==> rest[0] != s[0];
      }
    }
  }

  /** Exactly the letters are kept: each letter as often as in the input, nothing else. */
  lemma {:induction false} KeepOnlyLettersCounts(s: string, isLetter: char -> bool, c: char)
    ensures multiset(KeepOnlyLetters(s, isLetter))[c] == if isLetter(c) then multiset(s)[c] else 0
    decreases |s|
  {
    if |s| > 0 {
      KeepOnlyLettersCounts(s[1..], isLetter, c);
      assert s == [s[0]] + s[1..];
      var rest := KeepOnlyLetters(s[1..], isLetter);
      if isLetter(s[0]) {
        assert multiset([s[0]] + rest) == multiset([s[0]]) + multiset(rest);
      } else {
        assert "" + rest == rest;
      }
    }
  }

  /** A string of letters only is kept whole, so filtering twice is filtering once. */
  lemma {:induction false} KeepOnlyLettersOfLetters(s: string, isLetter: char -> bool)
    requires forall i :: 0 <= i < |s| ==> isLetter(s[i])
    ensures KeepOnlyLetters(s, isLetter) == s
    decreases |s|
  {
    if |s| > 0 {
      KeepOnlyLettersOfLetters(s[1..], isLetter);
      assert [s[0]] + s[1..] == s;
    }
  }

  lemma KeepOnlyLettersIdempotent(s: string, isLetter: char -> bool)
    ensures KeepOnlyLetters(KeepOnlyLetters(s, isLetter), isLetter) == KeepOnlyLetters(s, isLetter)
  {
    KeepOnlyLettersOfLetters(KeepOnlyLetters(s, isLetter), isLetter);
  }
}
