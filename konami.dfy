/**
 * The Konami easter egg: a buffer of the last ten key codes, and an image
 * shown when the buffer spells the code while the egg is not already shown.
 */
module Konami {
  import opened Common

  const KeyCount: nat := 10

  const KonamiCode: seq<string> := [
    "ArrowUp", "ArrowUp", "ArrowDown", "ArrowDown", "ArrowLeft",
    "ArrowRight", "ArrowLeft", "ArrowRight", "KeyB", "KeyA"
  ]

  /** `s.slice(-n)` for a positive `n`: the last `n` elements, or all of a shorter `s`. */
  function LastN<T>(s: seq<T>, n: nat): (r: seq<T>)
    requires n > 0
    ensures |r| == if |s| < n then |s| else n
    ensures r == s[|s| - |r|..]
  {
    if |s| <= n then s else s[|s| - n..]
  }

  /** The buffer after one more key: the new key appended, then cut to ten. */
  function Pushed(keys: seq<string>, code: string): (r: seq<string>)
    ensures 0 < |r| <= KeyCount
    ensures r[|r| - 1] == code
  {
    LastN(keys + [code], KeyCount)
  }

  /** Keeping only the last ten at every step keeps exactly the last ten of the whole history. */
  lemma {:induction false} PushedTracksHistory(history: seq<string>, code: string)
    ensures Pushed(LastN(history, KeyCount), code) == LastN(history + [code], KeyCount)
  {
    var n := KeyCount;
    var h := history + [code];
    var kept := LastN(history, n);
    assert kept + [code] == h[|h| - (|kept| + 1)..];
    var r := LastN(kept + [code], n);
    assert r == (kept + [code])[|kept| + 1 - |r|..];
  }

  /** The activation rule: not shown yet, a full buffer, and the buffer equal to the code. */
  predicate Activates(active: bool, keys: seq<string>)
    // The element-wise test is plain equality with the code.
    ensures Activates(active, keys) <==> !active && keys == KonamiCode
  {
    !active && |keys| == KeyCount && forall i :: 0 <= i < |keys| ==> keys[i] == KonamiCode[i]
  }

  /** Activation needs the last ten keys of the whole history to be the code. */
  lemma ActivationMeansCode(active: bool, history: seq<string>)
    ensures Activates(active, LastN(history, KeyCount)) <==>
      !active && |history| >= KeyCount && history[|history| - KeyCount..] == KonamiCode
  {
    var keys := LastN(history, KeyCount);
    if !active && |history| >= KeyCount && history[|history| - KeyCount..] == KonamiCode {
      assert keys == KonamiCode;
    }
    if Activates(active, keys) {
      assert keys == KonamiCode;
    }
  }

  datatype Props = Props(imageSrc: string, imageAlt: Option<string>, width: Option<int>, height: Option<int>)

  datatype View = Nothing | Image(src: string, alt: string, width: int, height: int)

  /** Nothing while inactive; otherwise the image, with the default alt text and size filled in. */
  function Render(active: bool, p: Props): (v: View)
    ensures v.Nothing? <==> !active
    ensures v.Image? ==>
      && v.src == p.imageSrc
      && v.alt == (if p.imageAlt.Some? then p.imageAlt.value else "Easter egg image")
      && v.width == (if p.width.Some? then p.width.value else 100)
      && v.height == (if p.height.Some? then p.height.value else 100)
  {
    if !active then Nothing
    else Image(p.imageSrc,
               if p.imageAlt.Some? then p.imageAlt.value else "Easter egg image",
               if p.width.Some? then p.width.value else 100,
               if p.height.Some? then p.height.value else 100)
  }

  class KonamiEaster {
    var keys: seq<string>
    var isActive: bool
    /** Every key code seen since the component mounted. */
    ghost var history: seq<string>

    ghost predicate Valid()
      reads this
    {
      keys == LastN(history, KeyCount)
    }

    constructor ()
      ensures Valid() && keys == [] && !isActive && history == []
    {
      keys := [];
      isActive := false;
      history := [];
      assert LastN<string>([], KeyCount) == [];
    }

    /** `handleKeyDown`; `activated` says whether the egg was switched on and its reset timer started. */
    method HandleKeyDown(code: string) returns (activated: bool)
      requires Valid()
      modifies this
      ensures Valid()
      ensures history == old(history) + [code]
      // The buffer is updated on every key, active or not, and is not cleared on activation.
      ensures keys == Pushed(old(keys), code)
      ensures activated <==> Activates(old(isActive), keys)
      ensures isActive == (old(isActive) || activated)
    {
      PushedTracksHistory(history, code);
      history := history + [code];
      keys := LastN(keys + [code], KeyCount);
      activated := Activates(isActive, keys);
      if activated {
        isActive := true;
      }
    }

    /** The timer started on activation firing: the egg is hidden again and the buffer kept. */
    method TimerFired()
      requires Valid()
      modifies this
      ensures Valid() && !isActive && keys == old(keys) && history == old(history)
    {
      isActive := false;
    }
  }
}
