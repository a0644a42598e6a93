/**
 * The home page's hero banner, which shows one of three pictures and moves
 * on to the next one at every tick of a timer.
 */
module Hero {
  /** The banner's pictures, in display order. */
  const HERO_IMAGES: seq<string> := [
    "https://images.unsplash.com/photo-1450778869180-41d0601e046e?w=1200&h=400&fit=crop",
    "https://images.unsplash.com/photo-1415369629372-26f2fe60c467?w=1200&h=400&fit=crop",
    "https://images.unsplash.com/photo-1548199973-03cce0bbc87b?w=1200&h=400&fit=crop"
  ]

  /** `(prev + 1) % heroImages.length`: the next position, wrapping after
      the last picture. */
  function NextIndex(i: nat): (r: nat)
    ensures r < |HERO_IMAGES|
    ensures i < |HERO_IMAGES| - 1 ==> r == i + 1
    ensures i == |HERO_IMAGES| - 1 ==> r == 0
  {
    (i + 1) % |HERO_IMAGES|
  }

  /** The position after `k` ticks, starting from `i`. */
  function Ticks(i: nat, k: nat): nat {
    if k == 0 then i else NextIndex(Ticks(i, k - 1))
  }

  /** `k` ticks from a valid position move it `k` places round the circle. */
  lemma {:induction false} TicksAreRotation(i: nat, k: nat)
    requires i < |HERO_IMAGES|
    ensures Ticks(i, k) == (i + k) % |HERO_IMAGES|
  {
    if k > 0 {
      TicksAreRotation(i, k - 1);
      var a := i + k - 1;
      assert |HERO_IMAGES| == 3;
      assert a == 3 * (a / 3) + a % 3;
      assert (a + 1) % 3 == if a % 3 == 2 then 0 else a % 3 + 1;
    }
  }

  /** After as many ticks as there are pictures the banner is back where it
      began, and not before: 0, 1, 2, 0. */
  lemma FullCycle(i: nat)
    requires i < |HERO_IMAGES|
    ensures Ticks(i, |HERO_IMAGES|) == i
    ensures forall k | 0 < k < |HERO_IMAGES| :: Ticks(i, k) != i
  {
    forall k | 0 <= k <= |HERO_IMAGES| ensures Ticks(i, k) == (i + k) % |HERO_IMAGES| {
      TicksAreRotation(i, k);
    }
  }

  /** The banner's state: the position of the picture on show. */
  class HeroRotator {
    var index: nat

    ghost predicate Valid()
      reads this
    {
      index < |HERO_IMAGES|
    }

    constructor ()
      ensures Valid() && index == 0
    {
      index := 0;
    }

    /** The picture on show. */
    function CurrentImage(): (url: string)
      reads this
      requires Valid()
      ensures url in HERO_IMAGES
    {
      HERO_IMAGES[index]
    }

    /** One tick of the timer: `setCurrentImageIndex(prev => (prev + 1) % 3)`. */
    method Tick()
      requires Valid()
      modifies this
      ensures Valid()
      ensures index == NextIndex(old(index))
    {
      index := NextIndex(index);
    }
  }
}
