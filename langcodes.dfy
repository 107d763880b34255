/** The caption language-code matcher of `Downloader._find_matching_lang_codes`.

    The available codes are a sequence of distinct codes in one fixed
    iteration order (the source iterates a Python set, whose order is not
    specified). */
module LangCodes {
  import opened Common

  /** The prefix scan for one preference: walks `codes` in order and appends
      each code that starts with `short` and is not yet in `acc`. */
  function ScanPrefix(acc: seq<string>, codes: seq<string>, short: string): seq<string>
    decreases |codes|
  {
    if codes == [] then acc
    else
      var acc' := if StartsWith(codes[0], short) && codes[0] !in acc then acc + [codes[0]] else acc;
      ScanPrefix(acc', codes[1..], short)
  }

  /** What one preference does to the matches so far: an exact hit not yet
      matched is appended alone; otherwise the prefix scan runs. */
  function Step(acc: seq<string>, available: seq<string>, short: string): seq<string> {
    if short in available && short !in acc then acc + [short]
    else ScanPrefix(acc, available, short)
  }

  /** The matches after processing the preferences `preferred` in order. */
  function Matches(available: seq<string>, preferred: seq<string>): seq<string>
    decreases |preferred|
  {
    if preferred == [] then []
    else Step(Matches(available, preferred[..|preferred| - 1]), available, preferred[|preferred| - 1])
  }

  /** Reference definition of what a preference contributes: the exact code
      alone, or every not-yet-matched available code starting with it, in
      iteration order. */
  function NewFor(acc: seq<string>, available: seq<string>, short: string): seq<string> {
    if short in available && short !in acc then [short]
    else PrefixedNotIn(available, short, acc)
  }

  function PrefixedNotIn(codes: seq<string>, short: string, acc: seq<string>): seq<string>
    decreases |codes|
  {
    if codes == [] then []
    else (if StartsWith(codes[0], short) && codes[0] !in acc then [codes[0]] else [])
         + PrefixedNotIn(codes[1..], short, acc)
  }

  /** The matcher as the source writes it: nested loops appending to `matches`. */
  method FindMatchingLangCodes(available: seq<string>, preferred: seq<string>) returns (matches: seq<string>)
    ensures matches == Matches(available, preferred)
  {
    matches := [];
    for i := 0 to |preferred|
      invariant matches == Matches(available, preferred[..i])
    {
      assert preferred[..i + 1][..i] == preferred[..i];
      var short := preferred[i];
      if short in available && short !in matches {
        matches := matches + [short];
        continue;
      }
      ghost var before := matches;
      for j := 0 to |available|
        invariant ScanPrefix(matches, available[j..], short) == ScanPrefix(before, available, short)
      {
        assert available[j..][1..] == available[j + 1..];
        var code := available[j];
        if StartsWith(code, short) && code !in matches {
          matches := matches + [code];
        }
      }
      assert available[|available|..] == [];
    }
    assert preferred[..|preferred|] == preferred;
  }

  // ----- Properties -----

  lemma {:induction false} PrefixedNotInIgnores(codes: seq<string>, short: string, acc: seq<string>, x: string)
    requires x !in codes
    ensures PrefixedNotIn(codes, short, acc + [x]) == PrefixedNotIn(codes, short, acc)
    decreases |codes|
  {
    if codes != [] {
      PrefixedNotInIgnores(codes[1..], short, acc, x);
    }
  }

  lemma NoDupTail(codes: seq<string>)
    requires NoDup(codes) && codes != []
    ensures NoDup(codes[1..]) && codes[0] !in codes[1..]
  {
  }

  /** Over distinct codes, the progressive scan appends exactly the filter. */
  lemma {:induction false} ScanIsFilter(acc: seq<string>, codes: seq<string>, short: string)
    requires NoDup(codes)
    ensures ScanPrefix(acc, codes, short) == acc + PrefixedNotIn(codes, short, acc)
    decreases |codes|
  {
    if codes != [] {
      var c := codes[0];
      var rest := codes[1..];
      NoDupTail(codes);
      if StartsWith(c, short) && c !in acc {
        ScanIsFilter(acc + [c], rest, short);
        PrefixedNotInIgnores(rest, short, acc, c);
        assert PrefixedNotIn(codes, short, acc) == [c] + PrefixedNotIn(rest, short, acc);
        assert acc + [c] + PrefixedNotIn(rest, short, acc) == acc + ([c] + PrefixedNotIn(rest, short, acc));
      } else {
        ScanIsFilter(acc, rest, short);
        assert PrefixedNotIn(codes, short, acc) == [] + PrefixedNotIn(rest, short, acc);
      }
    }
  }

  /** Adding one more preference appends exactly its contribution: earlier
      preferences' matches come first, an exact hit contributes only itself
      (its prefix scan is skipped), and otherwise every not-yet-matched code
      starting with it is appended in iteration order. */
  lemma MatchesSnoc(available: seq<string>, preferred: seq<string>, short: string)
    requires NoDup(available)
    ensures Matches(available, preferred + [short])
         == Matches(available, preferred) + NewFor(Matches(available, preferred), available, short)
  {
    var p := preferred + [short];
    assert p[..|p| - 1] == preferred;
    ScanIsFilter(Matches(available, preferred), available, short);
  }

  lemma {:induction false} ScanPrefixNoDup(acc: seq<string>, codes: seq<string>, short: string)
    requires NoDup(acc)
    ensures NoDup(ScanPrefix(acc, codes, short))
    decreases |codes|
  {
    if codes != [] {
      var c := codes[0];
      if StartsWith(c, short) && c !in acc {
        NoDupSnoc(acc, c);
        ScanPrefixNoDup(acc + [c], codes[1..], short);
      } else {
        ScanPrefixNoDup(acc, codes[1..], short);
      }
    }
  }

  /** The matches never repeat a code. */
  lemma {:induction false} MatchesNoDup(available: seq<string>, preferred: seq<string>)
    ensures NoDup(Matches(available, preferred))
    decreases |preferred|
  {
    if preferred != [] {
      var acc := Matches(available, preferred[..|preferred| - 1]);
      var short := preferred[|preferred| - 1];
      MatchesNoDup(available, preferred[..|preferred| - 1]);
      if short in available && short !in acc {
        NoDupSnoc(acc, short);
      } else {
        ScanPrefixNoDup(acc, available, short);
      }
    }
  }

  lemma {:induction false} ScanPrefixGrows(acc: seq<string>, codes: seq<string>, short: string)
    ensures acc <= ScanPrefix(acc, codes, short)
    ensures forall m :: m in ScanPrefix(acc, codes, short) ==> m in acc || (m in codes && StartsWith(m, short))
    ensures forall c :: c in codes && StartsWith(c, short) ==> c in ScanPrefix(acc, codes, short)
    decreases |codes|
  {
    if codes != [] {
      var c := codes[0];
      var acc' := if StartsWith(c, short) && c !in acc then acc + [c] else acc;
      ScanPrefixGrows(acc', codes[1..], short);
      assert forall x :: x in codes <==> x == c || x in codes[1..];
      var r := ScanPrefix(acc', codes[1..], short);
      forall x | x in acc' ensures x in r {
        var i :| 0 <= i < |acc'| && acc'[i] == x;
        assert r[i] == x;
      }
    }
  }

  /** Every match is an available code that starts with (or equals) some
      preferred code. */
  lemma {:induction false} MatchesSound(available: seq<string>, preferred: seq<string>, m: string)
    requires m in Matches(available, preferred)
    ensures m in available
    ensures exists k :: 0 <= k < |preferred| && StartsWith(m, preferred[k])
    decreases |preferred|
  {
    var init := preferred[..|preferred| - 1];
    var acc := Matches(available, init);
    var short := preferred[|preferred| - 1];
    ScanPrefixGrows(acc, available, short);
    if m in acc {
      MatchesSound(available, init, m);
      var k :| 0 <= k < |init| && StartsWith(m, init[k]);
      assert preferred[k] == init[k];
    } else {
      assert m == short || (m in available && StartsWith(m, short));
      assert m[..|short|] == short;
      assert StartsWith(m, preferred[|preferred| - 1]);
    }
  }

  /** Matches for a prefix of the preferences stay, in place, at the front. */
  lemma {:induction false} MatchesGrow(available: seq<string>, preferred: seq<string>, n: nat)
    requires n <= |preferred|
    ensures Matches(available, preferred[..n]) <= Matches(available, preferred)
    decreases |preferred| - n
  {
    if n < |preferred| {
      var init := preferred[..|preferred| - 1];
      assert init[..n] == preferred[..n];
      MatchesGrow(available, init, n);
      ScanPrefixGrows(Matches(available, init), available, preferred[|preferred| - 1]);
    } else {
      assert preferred[..n] == preferred;
    }
  }

  /** Completeness for each preference: an available exact code is matched;
      a preference with no exact code brings in every code starting with it. */
  lemma MatchesComplete(available: seq<string>, preferred: seq<string>, k: nat)
    requires k < |preferred|
    ensures preferred[k] in available ==> preferred[k] in Matches(available, preferred)
    ensures preferred[k] !in available ==>
              forall c :: c in available && StartsWith(c, preferred[k]) ==> c in Matches(available, preferred)
  {
    var head := preferred[..k + 1];
    assert head[..k] == preferred[..k];
    var acc := Matches(available, preferred[..k]);
    ScanPrefixGrows(acc, available, preferred[k]);
    assert head[|head| - 1] == preferred[k];
    MatchesGrow(available, preferred, k + 1);
  }

  /** A regional variant is found by prefix when no exact code exists. */
  lemma MatchExampleRegional()
    ensures Matches(["en", "pt-BR", "fr"], ["pt", "en"]) == ["pt-BR", "en"]
  {
    var a := ["en", "pt-BR", "fr"];
    assert ["pt", "en"][..1] == ["pt"];
    assert "en"[..2][0] == 'e' && "fr"[..2][0] == 'f' && "pt-BR"[..2] == "pt";
    assert ScanPrefix([], a, "pt") == ["pt-BR"];
  }

  /** An exact `pt` skips the prefix scan, so `pt-BR` is not selected. */
  lemma MatchExampleExactHit()
    ensures Matches(["pt", "pt-BR", "en"], ["pt", "en"]) == ["pt", "en"]
  {
    assert ["pt", "en"][..1] == ["pt"];
    assert Matches(["pt", "pt-BR", "en"], ["pt"]) == ["pt"];
  }

  /** The skip is per preference: a repeated `pt` finds its exact code
      already matched and scans, so `pt-BR` is selected after all. */
  lemma MatchExampleRepeated()
    ensures Matches(["pt", "pt-BR"], ["pt", "pt"]) == ["pt", "pt-BR"]
  {
    assert ["pt", "pt"][..1] == ["pt"];
    assert Matches(["pt", "pt-BR"], ["pt"]) == ["pt"];
    assert "pt-BR"[..2] == "pt";
    assert ScanPrefix(["pt"], ["pt", "pt-BR"], "pt") == ["pt", "pt-BR"];
  }

  /** A preference nothing starts with contributes nothing. */
  lemma MatchExampleNone()
    ensures Matches(["en", "fr"], ["de"]) == []
  {
    assert "en"[..2][0] == 'e' && "fr"[..2][0] == 'f';
    assert ScanPrefix([], ["en", "fr"], "de") == [];
  }
}
