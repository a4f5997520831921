/**
 * The badge-based level cap: `GetCurrentLevelCap` returns the cap for the
 * highest gym badge whose event flag is set. The eight `FlagGet` results are
 * an input, `badges[k - 1]` standing for `FLAG_BADGE0k_GET`.
 */
module LevelCap {

  /** The C return type `u8`. */
  newtype u8 = x: int | 0 <= x < 256

  const GymBadgeCount: nat := 8

  /** `enum GymBadgeLevelCaps`. */
  const LevelCapNoBadges: int := 14
  const LevelCapBadge1: int := 21
  const LevelCapBadge2: int := 24
  const LevelCapBadge3: int := 29
  const LevelCapBadge4: int := 43
  const LevelCapBadge5: int := 43
  const LevelCapBadge6: int := 47
  const LevelCapBadge7: int := 50
  const LevelCapBadge8: int := 63

  /** The caps indexed by the number of the badge they follow (0 for none). */
  const Caps: seq<int> := [LevelCapNoBadges, LevelCapBadge1, LevelCapBadge2, LevelCapBadge3,
    LevelCapBadge4, LevelCapBadge5, LevelCapBadge6, LevelCapBadge7, LevelCapBadge8]

  type Badges = b: seq<bool> | |b| == GymBadgeCount
    witness [false, false, false, false, false, false, false, false]

  /** Badges checked from the eighth down to the first; the first one set decides. */
  function GetCurrentLevelCap(badges: Badges): (cap: u8)
    ensures cap as int in Caps
    ensures LevelCapNoBadges <= cap as int <= LevelCapBadge8
  {
    if badges[7] then LevelCapBadge8 as u8
    else if badges[6] then LevelCapBadge7 as u8
    else if badges[5] then LevelCapBadge6 as u8
    else if badges[4] then LevelCapBadge5 as u8
    else if badges[3] then LevelCapBadge4 as u8
    else if badges[2] then LevelCapBadge3 as u8
    else if badges[1] then LevelCapBadge2 as u8
    else if badges[0] then LevelCapBadge1 as u8
    else LevelCapNoBadges as u8
  }

  /** The eighth badge decides whatever the other flags are. */
  lemma EighthBadgeDominates(badges: Badges)
    requires badges[7]
    ensures GetCurrentLevelCap(badges) as int == LevelCapBadge8
  {
  }

  /** No badge: the starting cap. */
  lemma NoBadgeCap(badges: Badges)
    requires forall k :: 0 <= k < GymBadgeCount ==> !badges[k]
    ensures GetCurrentLevelCap(badges) as int == LevelCapNoBadges
  {
  }

  /** The cap of the highest badge held; lower badges do not matter. */
  lemma HighestBadgeCap(badges: Badges, k: nat)
    requires 1 <= k <= GymBadgeCount && badges[k - 1]
    requires forall j :: k <= j < GymBadgeCount ==> !badges[j]
    ensures GetCurrentLevelCap(badges) as int == Caps[k]
  {
  }

  /** The number of the highest badge held, 0 when none is. */
  function HighestBadge(badges: Badges): (k: nat)
    ensures k <= GymBadgeCount
    ensures k > 0 ==> badges[k - 1]
    ensures forall j :: k <= j < GymBadgeCount ==> !badges[j]
  {
    HighestFrom(badges, GymBadgeCount)
  }

  function HighestFrom(badges: Badges, n: nat): (k: nat)
    requires n <= GymBadgeCount
    requires forall j :: n <= j < GymBadgeCount ==> !badges[j]
    ensures k <= n
    ensures k > 0 ==> badges[k - 1]
    ensures forall j :: k <= j < GymBadgeCount ==> !badges[j]
  {
    if n == 0 then 0 else if badges[n - 1] then n else HighestFrom(badges, n - 1)
  }

  /** The cap is the entry of `Caps` for the highest badge held. */
  lemma CapOfHighestBadge(badges: Badges)
    ensures GetCurrentLevelCap(badges) as int == Caps[HighestBadge(badges)]
  {
    var k := HighestBadge(badges);
    if k == 0 {
      NoBadgeCap(badges);
    } else {
      HighestBadgeCap(badges, k);
    }
  }

  /** Holding every badge of `badges` and possibly more never gives a lower cap. */
  lemma MoreBadgesNeverLower(badges: Badges, more: Badges)
    requires forall k :: 0 <= k < GymBadgeCount && badges[k] ==> more[k]
    ensures GetCurrentLevelCap(badges) <= GetCurrentLevelCap(more)
  {
    var h, h' := HighestBadge(badges), HighestBadge(more);
    CapOfHighestBadge(badges);
    CapOfHighestBadge(more);
    assert h <= h' by {
      if h > 0 { assert more[h - 1]; }
    }
    CapsNonDecreasing();
  }

  /** Earning one more badge never lowers the cap. */
  lemma EarnBadgeNeverLowers(badges: Badges, k: nat)
    requires k < GymBadgeCount
    ensures GetCurrentLevelCap(badges) <= GetCurrentLevelCap(badges[k := true])
  {
    MoreBadgesNeverLower(badges, badges[k := true]);
  }

  /** One cap for every badge count from 0 to `GYM_BADGE_COUNT`. */
  lemma CapsCount()
    ensures |Caps| == GymBadgeCount + 1
  {
  }

  lemma CapsNonDecreasing()
    ensures forall i, j :: 0 <= i <= j < |Caps| ==> Caps[i] <= Caps[j]
  {
  }

  /** The fourth and fifth caps are the only equal neighbours. */
  lemma OnlyFourthAndFifthEqual()
    ensures forall i :: 0 <= i < GymBadgeCount ==> (Caps[i] == Caps[i + 1] <==> i == 4)
    ensures forall i :: 0 <= i < GymBadgeCount && i != 4 ==> Caps[i] < Caps[i + 1]
  {
  }

  /** Every cap is a value of the `u8` return type. */
  lemma CapsFitU8()
    ensures forall i :: 0 <= i < |Caps| ==> 0 <= Caps[i] < 256
  {
  }
}
