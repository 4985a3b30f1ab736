/** `ALL_COUNTRIES` of `backend/src/checkoutRoutes.js`: the ISO 3166-1 alpha-2
    codes offered for shipping when every country is allowed, one group per
    initial letter as the source lays them out, and the proof that the list is
    strictly alphabetical, so that every entry is a two-letter code and none is
    repeated. */
module Countries {
  import opened Strings

  const CountriesA: seq<string> := ["AD", "AE", "AF", "AG", "AI", "AL", "AM", "AO", "AQ", "AR", "AS", "AT", "AU", "AW", "AX", "AZ"]
  const CountriesB: seq<string> := ["BA", "BB", "BD", "BE", "BF", "BG", "BH", "BI", "BJ", "BL", "BM", "BN", "BO", "BQ", "BR", "BS", "BT", "BV", "BW", "BY", "BZ"]
  const CountriesC: seq<string> := ["CA", "CC", "CD", "CF", "CG", "CH", "CI", "CK", "CL", "CM", "CN", "CO", "CR", "CU", "CV", "CW", "CX", "CY", "CZ"]
  const CountriesD: seq<string> := ["DE", "DJ", "DK", "DM", "DO", "DZ"]
  const CountriesE: seq<string> := ["EC", "EE", "EG", "EH", "ER", "ES", "ET"]
  const CountriesF: seq<string> := ["FI", "FJ", "FK", "FM", "FO", "FR"]
  const CountriesG: seq<string> := ["GA", "GB", "GD", "GE", "GF", "GG", "GH", "GI", "GL", "GM", "GN", "GP", "GQ", "GR", "GS", "GT", "GU", "GW", "GY"]
  const CountriesH: seq<string> := ["HK", "HM", "HN", "HR", "HT", "HU"]
  const CountriesI: seq<string> := ["ID", "IE", "IL", "IM", "IN", "IO", "IQ", "IR", "IS", "IT"]
  const CountriesJ: seq<string> := ["JE", "JM", "JO", "JP"]
  const CountriesK: seq<string> := ["KE", "KG", "KH", "KI", "KM", "KN", "KP", "KR", "KW", "KY", "KZ"]
  const CountriesL: seq<string> := ["LA", "LB", "LC", "LI", "LK", "LR", "LS", "LT", "LU", "LV", "LY"]
  const CountriesM: seq<string> := ["MA", "MC", "MD", "ME", "MF", "MG", "MH", "MK", "ML", "MM", "MN", "MO", "MP", "MQ", "MR", "MS", "MT", "MU", "MV", "MW", "MX", "MY", "MZ"]
  const CountriesN: seq<string> := ["NA", "NC", "NE", "NF", "NG", "NI", "NL", "NO", "NP", "NR", "NU", "NZ"]
  const CountriesO: seq<string> := ["OM"]
  const CountriesP: seq<string> := ["PA", "PE", "PF", "PG", "PH", "PK", "PL", "PM", "PN", "PR", "PS", "PT", "PW", "PY"]
  const CountriesQ: seq<string> := ["QA"]
  const CountriesR: seq<string> := ["RE", "RO", "RS", "RU", "RW"]
  const CountriesS: seq<string> := ["SA", "SB", "SC", "SD", "SE", "SG", "SH", "SI", "SJ", "SK", "SL", "SM", "SN", "SO", "SR", "SS", "ST", "SV", "SX", "SY", "SZ"]
  const CountriesT: seq<string> := ["TC", "TD", "TF", "TG", "TH", "TJ", "TK", "TL", "TM", "TN", "TO", "TR", "TT", "TV", "TW", "TZ"]
  const CountriesU: seq<string> := ["UA", "UG", "UM", "US", "UY", "UZ"]
  const CountriesV: seq<string> := ["VA", "VC", "VE", "VG", "VI", "VN", "VU"]
  const CountriesW: seq<string> := ["WF", "WS"]
  const CountriesY: seq<string> := ["YE", "YT"]
  const CountriesZ: seq<string> := ["ZA", "ZM", "ZW"]

  /** The groups from Q to Z. */
  const BackGroups: seq<string> :=
    CountriesQ + (CountriesR + (CountriesS + (CountriesT + (CountriesU +
    (CountriesV + (CountriesW + (CountriesY + CountriesZ)))))))

  /** The groups from I to Z. */
  const MiddleGroups: seq<string> :=
    CountriesI + (CountriesJ + (CountriesK + (CountriesL + (CountriesM +
    (CountriesN + (CountriesO + (CountriesP + BackGroups)))))))

  /** Every country code, in the source's order. */
  const AllCountries: seq<string> :=
    CountriesA + (CountriesB + (CountriesC + (CountriesD + (CountriesE +
    (CountriesF + (CountriesG + (CountriesH + MiddleGroups)))))))

  /** Two upper-case ASCII letters. */
  predicate IsAlpha2(code: string) {
    |code| == 2 && IsUpperAscii(code[0]) && IsUpperAscii(code[1])
  }

  /** `a` comes strictly before `b` in alphabetical order. */
  predicate Precedes(a: string, b: string)
    requires IsAlpha2(a) && IsAlpha2(b)
  {
    a[0] < b[0] || (a[0] == b[0] && a[1] < b[1])
  }

  /** From position `i` on, every entry is a two-letter code that precedes the next. */
  predicate AscendingAt(codes: seq<string>, i: nat)
    decreases |codes| - i
  {
    i >= |codes|
    || (&& IsAlpha2(codes[i])
        && (i + 1 < |codes| ==> IsAlpha2(codes[i + 1]) && Precedes(codes[i], codes[i + 1]))
        && AscendingAt(codes, i + 1))
  }

  /** Ascending from `|a| + j` in `a + b` is ascending from `j` in `b`. */
  lemma {:induction false} AscendingShift(a: seq<string>, b: seq<string>, j: nat)
    ensures AscendingAt(a + b, |a| + j) == AscendingAt(b, j)
    decreases |b| - j
  {
    if j < |b| {
      AscendingShift(a, b, j + 1);
      assert (a + b)[|a| + j] == b[j];
      if j + 1 < |b| {
        assert (a + b)[|a| + j + 1] == b[j + 1];
      }
    }
  }

  lemma {:induction false} AscendingAppendFrom(a: seq<string>, b: seq<string>, i: nat)
    requires i <= |a|
    requires AscendingAt(a, i) && AscendingAt(b, 0)
    requires a != [] && b != [] && IsAlpha2(a[|a| - 1]) && IsAlpha2(b[0]) && Precedes(a[|a| - 1], b[0])
    ensures AscendingAt(a + b, i)
    decreases |a| - i
  {
    AscendingShift(a, b, 0);
    if i < |a| {
      AscendingAppendFrom(a, b, i + 1);
      assert (a + b)[i] == a[i];
      if i + 1 < |a| {
        assert (a + b)[i + 1] == a[i + 1];
      } else {
        assert (a + b)[i + 1] == b[0];
      }
    }
  }

  /** Two ascending lists, the first ending before the second begins, make an
      ascending list. */
  lemma AscendingAppend(a: seq<string>, b: seq<string>)
    requires AscendingAt(a, 0) && AscendingAt(b, 0)
    requires a != [] && b != [] && IsAlpha2(a[|a| - 1]) && IsAlpha2(b[0]) && Precedes(a[|a| - 1], b[0])
    ensures AscendingAt(a + b, 0)
  {
    AscendingAppendFrom(a, b, 0);
  }

  /** An ascending list is ascending from every later position. */
  lemma {:induction false} AscendingLater(codes: seq<string>, i: nat, j: nat)
    requires i <= j && AscendingAt(codes, i)
    ensures AscendingAt(codes, j)
    decreases j - i
  {
    if i < j && i < |codes| {
      AscendingLater(codes, i + 1, j);
    }
  }

  /** In an ascending list every entry precedes every later one. */
  lemma {:induction false} AscendingPairs(codes: seq<string>, i: nat, j: nat)
    requires AscendingAt(codes, i) && i < j < |codes|
    ensures IsAlpha2(codes[i]) && IsAlpha2(codes[j]) && Precedes(codes[i], codes[j])
    decreases j - i
  {
    if i + 1 < j {
      AscendingPairs(codes, i + 1, j);
    }
  }

  // Each group is ascending on its own.

  lemma GroupAAscending()
    ensures AscendingAt(CountriesA, 0)
  {
    assert AscendingAt(CountriesA, 10);
    assert AscendingAt(CountriesA, 5);
  }

  lemma GroupBAscending()
    ensures AscendingAt(CountriesB, 0)
  {
    assert AscendingAt(CountriesB, 14);
    assert AscendingAt(CountriesB, 7);
  }

  lemma GroupCAscending()
    ensures AscendingAt(CountriesC, 0)
  {
    assert AscendingAt(CountriesC, 14);
    assert AscendingAt(CountriesC, 7);
  }

  lemma GroupDAscending()
    ensures AscendingAt(CountriesD, 0)
  {
  }

  lemma GroupEAscending()
    ensures AscendingAt(CountriesE, 0)
  {
  }

  lemma GroupFAscending()
    ensures AscendingAt(CountriesF, 0)
  {
  }

  lemma GroupGAscending()
    ensures AscendingAt(CountriesG, 0)
  {
    assert AscendingAt(CountriesG, 14);
    assert AscendingAt(CountriesG, 7);
  }

  lemma GroupHAscending()
    ensures AscendingAt(CountriesH, 0)
  {
  }

  lemma GroupIAscending()
    ensures AscendingAt(CountriesI, 0)
  {
    assert AscendingAt(CountriesI, 5);
  }

  lemma GroupJAscending()
    ensures AscendingAt(CountriesJ, 0)
  {
  }

  lemma GroupKAscending()
    ensures AscendingAt(CountriesK, 0)
  {
    assert AscendingAt(CountriesK, 5);
  }

  lemma GroupLAscending()
    ensures AscendingAt(CountriesL, 0)
  {
    assert AscendingAt(CountriesL, 5);
  }

  lemma GroupMAscending()
    ensures AscendingAt(CountriesM, 0)
  {
    assert AscendingAt(CountriesM, 14);
    assert AscendingAt(CountriesM, 7);
  }

  lemma GroupNAscending()
    ensures AscendingAt(CountriesN, 0)
  {
    assert AscendingAt(CountriesN, 6);
  }

  lemma GroupOAscending()
    ensures AscendingAt(CountriesO, 0)
  {
  }

  lemma GroupPAscending()
    ensures AscendingAt(CountriesP, 0)
  {
    assert AscendingAt(CountriesP, 7);
  }

  lemma GroupQAscending()
    ensures AscendingAt(CountriesQ, 0)
  {
  }

  lemma GroupRAscending()
    ensures AscendingAt(CountriesR, 0)
  {
  }

  lemma GroupSAscending()
    ensures AscendingAt(CountriesS, 0)
  {
    assert AscendingAt(CountriesS, 14);
    assert AscendingAt(CountriesS, 7);
  }

  lemma GroupTAscending()
    ensures AscendingAt(CountriesT, 0)
  {
    assert AscendingAt(CountriesT, 10);
    assert AscendingAt(CountriesT, 5);
  }

  lemma GroupUAscending()
    ensures AscendingAt(CountriesU, 0)
  {
  }

  lemma GroupVAscending()
    ensures AscendingAt(CountriesV, 0)
  {
  }

  lemma GroupWAscending()
    ensures AscendingAt(CountriesW, 0)
  {
  }

  lemma GroupYAscending()
    ensures AscendingAt(CountriesY, 0)
  {
  }

  lemma GroupZAscending()
    ensures AscendingAt(CountriesZ, 0)
  {
  }

  /** The groups from Q on are ascending together. */
  lemma BackAscending()
    ensures AscendingAt(BackGroups, 0)
  {
    GroupQAscending();
    GroupRAscending();
    GroupSAscending();
    GroupTAscending();
    GroupUAscending();
    GroupVAscending();
    GroupWAscending();
    GroupYAscending();
    GroupZAscending();
    AscendingAppend(CountriesY, CountriesZ);
    var fromY := CountriesY + CountriesZ;
    AscendingAppend(CountriesW, fromY);
    var fromW := CountriesW + fromY;
    AscendingAppend(CountriesV, fromW);
    var fromV := CountriesV + fromW;
    AscendingAppend(CountriesU, fromV);
    var fromU := CountriesU + fromV;
    AscendingAppend(CountriesT, fromU);
    var fromT := CountriesT + fromU;
    AscendingAppend(CountriesS, fromT);
    var fromS := CountriesS + fromT;
    AscendingAppend(CountriesR, fromS);
    var fromR := CountriesR + fromS;
    AscendingAppend(CountriesQ, fromR);
  }

  /** The groups from I on are ascending together. */
  lemma MiddleAscending()
    ensures AscendingAt(MiddleGroups, 0)
  {
    GroupIAscending();
    GroupJAscending();
    GroupKAscending();
    GroupLAscending();
    GroupMAscending();
    GroupNAscending();
    GroupOAscending();
    GroupPAscending();
    BackAscending();
    AscendingAppend(CountriesP, BackGroups);
    var fromP := CountriesP + BackGroups;
    AscendingAppend(CountriesO, fromP);
    var fromO := CountriesO + fromP;
    AscendingAppend(CountriesN, fromO);
    var fromN := CountriesN + fromO;
    AscendingAppend(CountriesM, fromN);
    var fromM := CountriesM + fromN;
    AscendingAppend(CountriesL, fromM);
    var fromL := CountriesL + fromM;
    AscendingAppend(CountriesK, fromL);
    var fromK := CountriesK + fromL;
    AscendingAppend(CountriesJ, fromK);
    var fromJ := CountriesJ + fromK;
    AscendingAppend(CountriesI, fromJ);
  }

  /** The whole list is ascending. */
  lemma AllCountriesAscending()
    ensures AscendingAt(AllCountries, 0)
  {
    GroupAAscending();
    GroupBAscending();
    GroupCAscending();
    GroupDAscending();
    GroupEAscending();
    GroupFAscending();
    GroupGAscending();
    GroupHAscending();
    MiddleAscending();
    AscendingAppend(CountriesH, MiddleGroups);
    var fromH := CountriesH + MiddleGroups;
    AscendingAppend(CountriesG, fromH);
    var fromG := CountriesG + fromH;
    AscendingAppend(CountriesF, fromG);
    var fromF := CountriesF + fromG;
    AscendingAppend(CountriesE, fromF);
    var fromE := CountriesE + fromF;
    AscendingAppend(CountriesD, fromE);
    var fromD := CountriesD + fromE;
    AscendingAppend(CountriesC, fromD);
    var fromC := CountriesC + fromD;
    AscendingAppend(CountriesB, fromC);
    var fromB := CountriesB + fromC;
    AscendingAppend(CountriesA, fromB);
  }

  /** Every entry is two upper-case letters, and no code is listed twice. */
  lemma AllCountriesWellFormed()
    ensures forall i :: 0 <= i < |AllCountries| ==> IsAlpha2(AllCountries[i])
    ensures forall i, j :: 0 <= i < j < |AllCountries| ==> AllCountries[i] != AllCountries[j]
  {
    AllCountriesAscending();
    forall i | 0 <= i < |AllCountries|
      ensures IsAlpha2(AllCountries[i])
    {
      AscendingLater(AllCountries, 0, i);
    }
    forall i, j | 0 <= i < j < |AllCountries|
      ensures AllCountries[i] != AllCountries[j]
    {
      AscendingLater(AllCountries, 0, i);
      AscendingPairs(AllCountries, i, j);
    }
  }
}
