/** The change test of the plugin's player-polling coroutine: the player
    dropdown is rebuilt when the number of connected players differs from the
    remembered list or some current name is not remembered. */
module PlayerPoll {
  import opened Seqs

  /** The names a list holds, forgetting order. */
  function Names(names: seq<string>): set<string> {
    set i | 0 <= i < |names| :: names[i]
  }

  /** The coroutine's test: the counts differ, or a current name is missing
      from the remembered list. */
  predicate PlayerListChanged(known: seq<string>, current: seq<string>): (changed: bool)
    ensures !changed ==> |current| == |known| && Names(current) <= Names(known)
  {
    |current| != |known| || exists i | 0 <= i < |current| :: current[i] !in known
  }

  /** A list of distinct names has as many names as entries. */
  lemma {:induction false} DistinctNamesCount(names: seq<string>)
    requires Distinct(names)
    ensures |Names(names)| == |names|
    decreases |names|
  {
    if |names| > 0 {
      var rest := names[..|names| - 1];
      DistinctNamesCount(rest);
      assert Names(names) == Names(rest) + {names[|names| - 1]};
      assert names[|names| - 1] !in Names(rest);
    }
  }

  /** For lists without repeated names, the test reports no change exactly
      when both lists hold the same set of names. */
  lemma UnchangedIffSameNames(known: seq<string>, current: seq<string>)
    requires Distinct(known) && Distinct(current)
    ensures !PlayerListChanged(known, current) <==> Names(known) == Names(current)
  {
    DistinctNamesCount(known);
    DistinctNamesCount(current);
    if !PlayerListChanged(known, current) {
      assert Names(current) <= Names(known) by {
        forall n | n in Names(current)
          ensures n in Names(known)
        {
          var i :| 0 <= i < |current| && current[i] == n;
          var j :| 0 <= j < |known| && known[j] == n;
        }
      }
      assert Names(known) * Names(current) == Names(current);
      assert |Names(known) - Names(current)| == 0;
    }
    if Names(known) == Names(current) {
      forall i | 0 <= i < |current|
        ensures current[i] in known
      {
        assert current[i] in Names(current);
      }
    }
  }
}
