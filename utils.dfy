/** The small helpers of photos_time_warp/utils.py, and the rich-markup helpers red/green,
    which are defined in cli.py (lines 91-98) and used by compare_exif.py. */
module Utils {

  /** `pluralize(count, singular, plural)`: the singular form exactly when count is 1. */
  function Pluralize(count: int, singular: string, plural: string): (r: string)
    ensures count == 1 ==> r == singular
    ensures count != 1 ==> r == plural
  {
    if count == 1 then singular else plural
  }

  /** `noop(*args, **kwargs)`: accepts anything, returns nothing, changes nothing
      (no out-parameter and an empty frame). */
  method Noop<T>(args: seq<T>)
  {
  }

  const RedOpen := "[red]"
  const RedClose := "[/red]"
  const GreenOpen := "[green]"
  const GreenClose := "[/green]"

  /** `red(msg)`: the message wrapped in rich's red markup. */
  function Red(msg: string): (r: string)
    ensures |r| == |msg| + |RedOpen| + |RedClose|
    ensures r[..|RedOpen|] == RedOpen && r[|r| - |RedClose|..] == RedClose
    ensures r[|RedOpen|..|r| - |RedClose|] == msg
  {
    RedOpen + msg + RedClose
  }

  /** `green(msg)`: the message wrapped in rich's green markup. */
  function Green(msg: string): (r: string)
    ensures |r| == |msg| + |GreenOpen| + |GreenClose|
    ensures r[..|GreenOpen|] == GreenOpen && r[|r| - |GreenClose|..] == GreenClose
    ensures r[|GreenOpen|..|r| - |GreenClose|] == msg
  {
    GreenOpen + msg + GreenClose
  }

  /** Removing the markup gives the message back. */
  function StripRed(r: string): (msg: string)
    requires |r| >= |RedOpen| + |RedClose|
  {
    r[|RedOpen|..|r| - |RedClose|]
  }

  function StripGreen(r: string): (msg: string)
    requires |r| >= |GreenOpen| + |GreenClose|
  {
    r[|GreenOpen|..|r| - |GreenClose|]
  }

  /** A message marked red is never the same text as a message marked green, so the
      colour a reader sees always tells the two outcomes apart. */
  lemma RedNeverGreen(a: string, b: string)
    ensures Red(a) != Green(b)
  {
    assert Red(a)[1] == 'r' && Green(b)[1] == 'g';
  }

  /** Both markups are injective. */
  lemma MarkupInjective(a: string, b: string)
    ensures Red(a) == Red(b) ==> a == b
    ensures Green(a) == Green(b) ==> a == b
  {
    if Red(a) == Red(b) {
      assert a == StripRed(Red(a)) && b == StripRed(Red(b));
    }
    if Green(a) == Green(b) {
      assert a == StripGreen(Green(a)) && b == StripGreen(Green(b));
    }
  }
}
