/** src-tauri/src/utils.rs: the string helper `str_skip_to`. The other
    helpers there (explorer, symlinks, zip extraction) are operating-system
    calls and are not part of this model. */
module Utils {
  import opened Strings

  /** The suffix of `str` starting at the first occurrence of `to`, or the
      whole of `str` when `to` does not occur (`unwrap_or(0)`). */
  function StrSkipTo(str: string, to: string): (r: string)
    ensures EndsWith(str, r)
    ensures Contains(str, to) ==> StartsWith(r, to)
    ensures Contains(str, to) ==> forall j: nat :: j < |str| - |r| ==> !OccursAt(str, to, j)
    ensures !Contains(str, to) ==> r == str
  {
    var i := match Find(str, to) case Some(i) => i case None => 0;
    assert OccursAt(str, to, i) ==> str[i..][..|to|] == to;
    str[i..]
  }

  /** Skipping again to the same marker changes nothing. */
  lemma StrSkipToIdempotent(str: string, to: string)
    ensures StrSkipTo(StrSkipTo(str, to), to) == StrSkipTo(str, to)
  {
    var r := StrSkipTo(str, to);
    if Contains(str, to) {
      assert OccursAt(r, to, 0);
      assert Contains(r, to);
      var k := Find(r, to);
      assert k.Some? && k.value == 0;
    }
  }
}
