/**
 * The photo-filename convention of server.js: the name an upload is stored under, the
 * extension test that decides which directory entries are photos, and the timestamp the
 * listing reads back out of a name.
 */
module PhotoNames {
  import opened Wrappers
  import opened JsText

  // ---------------------------------------------------------------------------------------
  // Name generation (the multer `filename` callback)
  // ---------------------------------------------------------------------------------------

  /**
   * The name an upload taken at `timestamp` milliseconds is stored under:
   * `photo_`, the timestamp in decimal without leading zeros, then `.jpg`.
   */
  function PhotoName(timestamp: nat): (name: string)
    ensures |name| >= 11
    ensures name[..6] == "photo_" && name[|name| - 4..] == ".jpg"
    ensures forall i :: 6 <= i < |name| - 4 ==> IsDecimalDigit(name[i])
    ensures name[6] == '0' ==> |name| == 11
    ensures RunValue(name[6..|name| - 4], 10) == timestamp
  {
    DecimalValue(timestamp);
    var name := "photo_" + Decimal(timestamp) + ".jpg";
    assert name[6..|name| - 4] == Decimal(timestamp);
    name
  }

  // ---------------------------------------------------------------------------------------
  // The image-extension filter, /\.(jpg|jpeg|png)$/i
  // ---------------------------------------------------------------------------------------

  /**
   * The canonical form a case-insensitive, non-Unicode JavaScript regular expression compares
   * characters by: ASCII letters fold to upper case, and no other character folds onto ASCII.
   */
  function FoldCase(c: char): char {
    if 'a' <= c <= 'z' then (c as int - 32) as char else c
  }

  /** `s` ends in `suffix` when characters are compared by their canonical forms. */
  predicate EndsWithIgnoringCase(s: string, suffix: string)
    decreases |suffix|
  {
    if suffix == [] then true
    else
      && s != []
      && FoldCase(s[|s| - 1]) == FoldCase(suffix[|suffix| - 1])
      && EndsWithIgnoringCase(s[..|s| - 1], suffix[..|suffix| - 1])
  }

  /** The filter of the listing: the name ends in `.jpg`, `.jpeg` or `.png`, in any case. */
  predicate IsImageName(name: string) {
    || EndsWithIgnoringCase(name, ".jpg")
    || EndsWithIgnoringCase(name, ".jpeg")
    || EndsWithIgnoringCase(name, ".png")
  }

  /** Character-by-character comparison under case folding, as the regular expression matches. */
  ghost predicate EqualIgnoringCase(a: string, b: string) {
    |a| == |b| && forall i :: 0 <= i < |a| ==> FoldCase(a[i]) == FoldCase(b[i])
  }

  /** The suffix test compares the last `|suffix|` characters of `s` with `suffix`. */
  lemma {:induction false} EndsWithCompares(s: string, suffix: string)
    ensures EndsWithIgnoringCase(s, suffix) <==>
      |suffix| <= |s| && EqualIgnoringCase(s[|s| - |suffix|..], suffix)
    decreases |suffix|
  {
    if suffix != [] && s != [] {
      var s', suffix' := s[..|s| - 1], suffix[..|suffix| - 1];
      EndsWithCompares(s', suffix');
      if |suffix| <= |s| {
        var a, a' := s[|s| - |suffix|..], s'[|s'| - |suffix'|..];
        assert a' == a[..|a| - 1];
        if EqualIgnoringCase(a, suffix) {
          assert EqualIgnoringCase(a', suffix') by {
            forall i | 0 <= i < |a'| ensures FoldCase(a'[i]) == FoldCase(suffix'[i]) {
              assert a'[i] == a[i] && suffix'[i] == suffix[i];
            }
          }
          assert FoldCase(a[|a| - 1]) == FoldCase(suffix[|suffix| - 1]);
        }
        if EndsWithIgnoringCase(s, suffix) {
          forall i | 0 <= i < |a| ensures FoldCase(a[i]) == FoldCase(suffix[i]) {
            if i < |a| - 1 {
              assert a'[i] == a[i] && suffix'[i] == suffix[i];
            }
          }
        }
      }
    }
  }

  /**
   * One alternative of the pattern at index `i`: the characters from `i` to the end are
   * `ext`, a dot and an extension, under case folding (which leaves the dot as it is).
   */
  ghost predicate AlternativeMatchesAt(s: string, i: int, ext: string) {
    0 <= i <= |s| && EqualIgnoringCase(s[i..], ext)
  }

  /**
   * What the regular expression does at index `i`: it tries the three alternatives in turn,
   * and each must be followed by the end of the input.
   */
  ghost predicate PatternMatchesAt(s: string, i: int) {
    AlternativeMatchesAt(s, i, ".jpg") || AlternativeMatchesAt(s, i, ".jpeg")
    || AlternativeMatchesAt(s, i, ".png")
  }

  /** `String.prototype.match` finds the pattern at some starting index. */
  ghost predicate MatchesImagePattern(s: string) {
    exists i :: PatternMatchesAt(s, i)
  }

  /** A case-insensitive suffix is the alternative matching where the suffix starts. */
  lemma SuffixIsAlternative(s: string, ext: string)
    requires EndsWithIgnoringCase(s, ext)
    ensures AlternativeMatchesAt(s, |s| - |ext|, ext)
  {
    EndsWithCompares(s, ext);
  }

  /** Wherever an alternative matches, the name ends in that extension. */
  lemma AlternativeIsSuffix(s: string, i: int, ext: string)
    requires AlternativeMatchesAt(s, i, ext)
    ensures EndsWithIgnoringCase(s, ext)
  {
    assert i == |s| - |ext|;
    EndsWithCompares(s, ext);
  }

  /** A name that passes the filter is matched by the regular expression at its last dot. */
  lemma ImageNameMatches(s: string)
    requires IsImageName(s)
    ensures MatchesImagePattern(s)
  {
    if EndsWithIgnoringCase(s, ".jpg") {
      SuffixIsAlternative(s, ".jpg");
      assert PatternMatchesAt(s, |s| - 4);
    } else if EndsWithIgnoringCase(s, ".jpeg") {
      SuffixIsAlternative(s, ".jpeg");
      assert PatternMatchesAt(s, |s| - 5);
    } else {
      SuffixIsAlternative(s, ".png");
      assert PatternMatchesAt(s, |s| - 4);
    }
  }

  /** A name the regular expression matches passes the filter. */
  lemma MatchIsImageName(s: string)
    requires MatchesImagePattern(s)
    ensures IsImageName(s)
  {
    var i :| PatternMatchesAt(s, i);
    if AlternativeMatchesAt(s, i, ".jpg") {
      AlternativeIsSuffix(s, i, ".jpg");
    } else if AlternativeMatchesAt(s, i, ".jpeg") {
      AlternativeIsSuffix(s, i, ".jpeg");
    } else {
      AlternativeIsSuffix(s, i, ".png");
    }
  }

  /**
   * The suffix test is exactly the regular expression's verdict: a name passes the filter
   * if and only if the pattern matches it somewhere.
   */
  lemma ImageNameMatchesPattern(s: string)
    ensures IsImageName(s) <==> MatchesImagePattern(s)
  {
    if IsImageName(s) {
      ImageNameMatches(s);
    }
    if MatchesImagePattern(s) {
      MatchIsImageName(s);
    }
  }

  /** A name ending in any case variant of `suffix` ends in `suffix` ignoring case. */
  lemma EndsWithCaseVariant(p: string, t: string, suffix: string)
    requires EqualIgnoringCase(t, suffix)
    ensures EndsWithIgnoringCase(p + t, suffix)
  {
    EndsWithCompares(p + t, suffix);
    assert (p + t)[|p + t| - |suffix|..] == t;
  }

  /** Upper-case extensions pass the filter. */
  lemma ImageNameAcceptsAnyCase()
    ensures IsImageName("photo_1.JPEG") && IsImageName("holiday.Png")
  {
    assert EqualIgnoringCase(".JPEG", ".jpeg");
    EndsWithCaseVariant("photo_1", ".JPEG", ".jpeg");
    assert "photo_1" + ".JPEG" == "photo_1.JPEG";
    assert EqualIgnoringCase(".Png", ".png");
    EndsWithCaseVariant("holiday", ".Png", ".png");
    assert "holiday" + ".Png" == "holiday.Png";
  }

  /** A stray text file is not a photo, even one whose name contains `.jpg` earlier on. */
  lemma ImageNameRejectsText()
    ensures !IsImageName("notes.txt") && !IsImageName("a.jpg.txt")
  {
    assert "notes.txt"[|"notes.txt"| - 1] == 't';
    assert "a.jpg.txt"[|"a.jpg.txt"| - 1] == 't';
    assert FoldCase('t') != FoldCase('g');
  }

  /** Every generated name passes the filter, so a fresh upload is listable. */
  lemma PhotoNameIsImage(timestamp: nat)
    ensures IsImageName(PhotoName(timestamp))
  {
    EndsWithCaseVariant("photo_" + Decimal(timestamp), ".jpg", ".jpg");
  }

  // ---------------------------------------------------------------------------------------
  // Timestamp extraction, parseInt(a.split('_')[1].split('.')[0])
  // ---------------------------------------------------------------------------------------

  datatype TimestampError =
    | NoUnderscore   // `split('_')[1]` is undefined, and calling `split` on it throws
    | NotANumber     // `parseInt` finds no digits and yields NaN

  /**
   * The timestamp the comparator reads out of a name: the second `_`-separated piece, up to
   * its first `.`, parsed by `parseInt`. A name without `_` is exactly the case that throws.
   */
  function TimestampOf(name: string): (r: Result<int, TimestampError>)
    ensures r == Err(NoUnderscore) <==> '_' !in name
  {
    var pieces := Split(name, '_');
    SplitHasSecondPiece(name, '_');
    if |pieces| < 2 then Err(NoUnderscore)
    else
      match ParseInt(Split(pieces[1], '.')[0])
      case None => Err(NotANumber)
      case Some(t) => Ok(t)
  }

  /**
   * Which text the timestamp is read from: in `p_q…` with `p` free of `_` and `q` free of
   * both `_` and `.`, it is `q`, provided `q` ends where a `.` or a further `_` begins.
   */
  lemma TimestampOfPieces(p: string, q: string, rest: string)
    requires '_' !in p && '_' !in q && '.' !in q
    requires rest == [] || rest[0] == '.' || rest[0] == '_'
    ensures TimestampOf(p + "_" + q + rest) ==
      if ParseInt(q).Some? then Ok(ParseInt(q).value) else Err(NotANumber)
  {
    var name := p + "_" + q + rest;
    assert name == p + ['_'] + (q + rest);
    SplitAfterPiece(p, q + rest, '_');
    var pieces := Split(name, '_');
    assert |pieces| >= 2;
    assert pieces[1] == Split(q + rest, '_')[0];
    FirstPieceAfter(q, rest, '_');
    var r0 := Split(rest, '_')[0];
    assert pieces[1] == q + r0;
    assert r0 == [] || r0[0] == '.';
    FirstPieceAfter(q, r0, '.');
    assert Split(r0, '.')[0] == [];
    assert Split(pieces[1], '.')[0] == q;
  }

  /** Round trip: the timestamp read back out of a generated name is the one it was made from. */
  lemma PhotoNameRoundTrip(timestamp: nat)
    ensures TimestampOf(PhotoName(timestamp)) == Ok(timestamp)
  {
    var digits := Decimal(timestamp);
    assert '.' !in digits && '_' !in digits by {
      forall i | 0 <= i < |digits| ensures digits[i] != '.' && digits[i] != '_' {
        assert IsDecimalDigit(digits[i]);
      }
    }
    assert PhotoName(timestamp) == "photo" + "_" + digits + ".jpg";
    TimestampOfPieces("photo", digits, ".jpg");
    ParseIntOfDecimal(timestamp);
    assert ParseInt(digits) == Some(timestamp);
  }

  /** Distinct timestamps give distinct names. */
  lemma PhotoNameInjective(a: nat, b: nat)
    ensures PhotoName(a) == PhotoName(b) ==> a == b
  {
    PhotoNameRoundTrip(a);
    PhotoNameRoundTrip(b);
  }

  /**
   * A name whose text after the first `_` has no leading digits has no timestamp: after white
   * space and an optional sign, the next character is not a decimal digit, or there is none.
   * Examples are `photo_v2.jpg`, `photo_-x1.jpg`, `photo_.jpg`, and `my_photo_7.jpg`, whose
   * second `_` moves the piece that is read away from the digits.
   */
  lemma TimestampOfNameWithoutDigits(p: string, ws: string, sign: string, u: string, rest: string)
    requires '_' !in p && '_' !in u && '.' !in u
    requires forall i :: 0 <= i < |ws| ==> IsStrWhiteSpace(ws[i])
    requires sign == "" || sign == "-" || sign == "+"
    requires u == [] || !IsDecimalDigit(u[0])
    requires sign == "" && u != [] ==> !IsStrWhiteSpace(u[0]) && u[0] != '-' && u[0] != '+'
    requires rest == [] || rest[0] == '.' || rest[0] == '_'
    ensures TimestampOf(p + "_" + (ws + sign + u) + rest) == Err(NotANumber)
  {
    var q := ws + sign + u;
    assert '_' !in ws && '.' !in ws by {
      forall i | 0 <= i < |ws| ensures ws[i] != '_' && ws[i] != '.' {
        assert IsStrWhiteSpace(ws[i]);
      }
    }
    assert '_' !in q && '.' !in q;
    TimestampOfPieces(p, q, rest);
    ParseIntWithoutDigits(ws, sign, u);
  }
}
