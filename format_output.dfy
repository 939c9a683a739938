/**
 * Projection of a translation list into a language -> text map, as the list
 * view displays it. The source folds the list from the left into an initially
 * empty object, assigning `acc[language] = text` for each entry, so a later
 * entry for a language overwrites an earlier one.
 */
module PhraseFormat {
  import opened PhraseTypes

  /** The left fold: `acc` is the accumulator after the entries already consumed. */
  function FormatInto(acc: map<string, string>, ts: seq<Translation>): map<string, string>
    decreases |ts|
  {
    if ts == [] then acc else FormatInto(acc[ts[0].language := ts[0].text], ts[1..])
  }

  function FormatPhraseOutput(ts: seq<Translation>): map<string, string> {
    FormatInto(map[], ts)
  }

  /** The set of languages appearing in `ts`. */
  function Languages(ts: seq<Translation>): set<string> {
    set i | 0 <= i < |ts| :: ts[i].language
  }

  /** No two entries share a language. */
  predicate DistinctLanguages(ts: seq<Translation>) {
    forall i, j :: 0 <= i < j < |ts| ==> ts[i].language != ts[j].language
  }

  lemma {:induction false} FormatIntoSnoc(acc: map<string, string>, ts: seq<Translation>, t: Translation)
    ensures FormatInto(acc, ts + [t]) == FormatInto(acc, ts)[t.language := t.text]
    decreases |ts|
  {
    if ts != [] {
      assert (ts + [t])[1..] == ts[1..] + [t];
      FormatIntoSnoc(acc[ts[0].language := ts[0].text], ts[1..], t);
    }
  }

  /** Folding one more entry sets (or overwrites) exactly its language. */
  lemma FormatSnoc(ts: seq<Translation>, t: Translation)
    ensures FormatPhraseOutput(ts + [t]) == FormatPhraseOutput(ts)[t.language := t.text]
  {
    FormatIntoSnoc(map[], ts, t);
  }

  /** The empty list gives the empty map. */
  lemma FormatEmpty()
    ensures FormatPhraseOutput([]) == map[]
  {
  }

  /** The keys are exactly the languages that appear in the input. */
  lemma {:induction false} FormatKeys(ts: seq<Translation>)
    ensures FormatPhraseOutput(ts).Keys == Languages(ts)
    decreases |ts|
  {
    if ts != [] {
      var init, last := ts[..|ts| - 1], ts[|ts| - 1];
      assert ts == init + [last];
      FormatKeys(init);
      FormatSnoc(init, last);
      assert Languages(ts) == Languages(init) + {last.language} by {
        forall l | l in Languages(ts) ensures l in Languages(init) + {last.language} {
          var i :| 0 <= i < |ts| && ts[i].language == l;
          if i < |ts| - 1 { assert init[i] == ts[i]; }
        }
        forall l | l in Languages(init) ensures l in Languages(ts) {
          var i :| 0 <= i < |init| && init[i].language == l;
          assert ts[i] == init[i];
        }
      }
    }
  }

  /**
   * Last entry wins: the value for the language of entry i is entry i's text
   * when no later entry has that language.
   */
  lemma {:induction false} FormatLastWins(ts: seq<Translation>, i: nat)
    requires i < |ts|
    requires forall j :: i < j < |ts| ==> ts[j].language != ts[i].language
    ensures ts[i].language in FormatPhraseOutput(ts)
    ensures FormatPhraseOutput(ts)[ts[i].language] == ts[i].text
    decreases |ts|
  {
    var init, last := ts[..|ts| - 1], ts[|ts| - 1];
    assert ts == init + [last];
    FormatSnoc(init, last);
    if i < |ts| - 1 {
      FormatLastWins(init, i);
    }
  }

  /** Every key has a last entry with that language, and its text is the value. */
  lemma FormatValueIsLastText(ts: seq<Translation>, l: string)
    requires l in FormatPhraseOutput(ts)
    ensures exists i :: (0 <= i < |ts| && ts[i].language == l
                         && FormatPhraseOutput(ts)[l] == ts[i].text
                         && forall j :: i < j < |ts| ==> ts[j].language != l)
  {
    FormatKeys(ts);
    var i :| 0 <= i < |ts| && ts[i].language == l;
    while exists j :: i < j < |ts| && ts[j].language == l
      invariant 0 <= i < |ts| && ts[i].language == l
      decreases |ts| - i
    {
      var k :| i < k < |ts| && ts[k].language == l;
      i := k;
    }
    FormatLastWins(ts, i);
  }

  /** With distinct languages, the map has one entry per translation. */
  lemma {:induction false} FormatSizeDistinct(ts: seq<Translation>)
    requires DistinctLanguages(ts)
    ensures |FormatPhraseOutput(ts)| == |ts|
    decreases |ts|
  {
    if ts != [] {
      var init, last := ts[..|ts| - 1], ts[|ts| - 1];
      assert ts == init + [last];
      FormatSizeDistinct(init);
      FormatSnoc(init, last);
      FormatKeys(init);
      assert last.language !in Languages(init) by {
        forall i | 0 <= i < |init| ensures init[i].language != last.language {
          assert init[i] == ts[i];
        }
      }
    }
  }

  /**
   * With distinct languages, the order of the entries does not matter: two
   * lists holding the same translations give the same map.
   */
  lemma FormatOrderIndependent(ts: seq<Translation>, us: seq<Translation>)
    requires DistinctLanguages(ts) && DistinctLanguages(us)
    requires forall t :: t in ts <==> t in us
    ensures FormatPhraseOutput(ts) == FormatPhraseOutput(us)
  {
    var m, n := FormatPhraseOutput(ts), FormatPhraseOutput(us);
    FormatKeys(ts);
    FormatKeys(us);
    assert Languages(ts) == Languages(us) by {
      forall l | l in Languages(ts) ensures l in Languages(us) {
        var i :| 0 <= i < |ts| && ts[i].language == l;
        assert ts[i] in us;
      }
      forall l | l in Languages(us) ensures l in Languages(ts) {
        var i :| 0 <= i < |us| && us[i].language == l;
        assert us[i] in ts;
      }
    }
    forall l | l in m ensures m[l] == n[l] {
      var i :| 0 <= i < |ts| && ts[i].language == l;
      assert ts[i] in us;
      var j :| 0 <= j < |us| && us[j] == ts[i];
      FormatLastWins(ts, i);
      FormatLastWins(us, j);
    }
  }
}
