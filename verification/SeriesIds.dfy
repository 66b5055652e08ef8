/** The id under which both services keep a (device, metric) series (registry.py of the stream processor, stats.py of the detector). */
module SeriesIds {

  function SeriesId(device: string, metric: string): string {
    device + "|" + metric
  }

  /** Two series share an id exactly if they are one series, for device names without the separator. */
  lemma SameSeriesIff(d: string, m: string, d': string, m': string)
    requires '|' !in d && '|' !in d'
    ensures SeriesId(d, m) == SeriesId(d', m') <==> d == d' && m == m'
  {
    SeparatorAt(d, m);
    SeparatorAt(d', m');
    var s, s' := SeriesId(d, m), SeriesId(d', m');
    if s == s' {
      assert |d| == |d'|;
      assert d == s[..|d|] && d' == s'[..|d'|];
      assert m == s[|d|+1..] && m' == s'[|d'|+1..];
    }
  }

  /** The first separator of an id ends the device's name. */
  lemma SeparatorAt(d: string, m: string)
    requires '|' !in d
    ensures |d| < |SeriesId(d, m)| && SeriesId(d, m)[|d|] == '|'
    ensures forall k :: 0 <= k < |d| ==> SeriesId(d, m)[k] != '|'
  {
    forall k | 0 <= k < |d|
      ensures SeriesId(d, m)[k] != '|'
    {
      assert d[k] in d;
    }
  }

  /** The premise is needed. */
  lemma SeparatorsCollide()
    ensures SeriesId("press|1", "rpm") == SeriesId("press", "1|rpm")
  {
    assert "press|1" + "|" + "rpm" == "press" + "|" + "1|rpm";
  }
}
