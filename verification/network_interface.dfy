/**
  The network interface registry's ownership test: does an event's netif
  belong to the controller that owns a given descriptor prefix?
 */
module NetworkInterface {
  import opened LibC

  /** Descriptor of the Wi-Fi station netif. */
  const DESC_STA: CString := "sta"

  /** Descriptor of the Ethernet netif. */
  const DESC_ETH: CString := "eth"

  /** `strlen(prefix) - 1` computed in size_t: it wraps to SIZE_MAX for the
      empty prefix. */
  function CompareLength(prefix: CString): nat {
    (|prefix| - 1) % (SIZE_MAX + 1)
  }

  /** `network_is_our_netif(prefix, netif)`, with the netif given by its
      descriptor: `strncmp` over `strlen(prefix) - 1` characters. */
  predicate IsOurNetif(prefix: CString, desc: CString)
    ensures |prefix| == 1 ==> IsOurNetif(prefix, desc)
  {
    StrNCmpZero(prefix, desc, CompareLength(prefix))
  }

  /** The exact meaning of the test: a non-empty prefix matches every
      descriptor whose first |prefix| - 1 characters are the prefix's first
      |prefix| - 1 characters; the empty prefix compares up to SIZE_MAX
      characters and so matches only the empty descriptor. */
  lemma IsOurNetifMeaning(prefix: CString, desc: CString)
    ensures |prefix| > 0 ==>
              (IsOurNetif(prefix, desc) <==>
                 |prefix| - 1 <= |desc| && desc[..|prefix| - 1] == prefix[..|prefix| - 1])
    ensures |prefix| == 0 ==> (IsOurNetif(prefix, desc) <==> desc == "")
  {
    StrNCmpZeroMeaning(prefix, desc, CompareLength(prefix));
  }

  /** The last character of the prefix is never compared: the prefix without
      it, and the prefix with its last character replaced, both match. */
  lemma LastCharacterIgnored(prefix: CString, c: char)
    requires |prefix| > 0 && c != NUL
    ensures IsOurNetif(prefix, prefix[..|prefix| - 1])
    ensures IsOurNetif(prefix, prefix[..|prefix| - 1] + [c])
  {
    IsOurNetifMeaning(prefix, prefix[..|prefix| - 1]);
    var other: CString := prefix[..|prefix| - 1] + [c];
    IsOurNetifMeaning(prefix, other);
    assert other[..|prefix| - 1] == prefix[..|prefix| - 1];
  }

  /** The station prefix accepts "st", "stx" and "sta1" but not "s" or "eta". */
  lemma StationPrefixExamples()
    ensures IsOurNetif(DESC_STA, "st")
    ensures IsOurNetif(DESC_STA, "stx")
    ensures IsOurNetif(DESC_STA, "sta1")
    ensures !IsOurNetif(DESC_STA, "s")
    ensures !IsOurNetif(DESC_STA, "eta")
  {
    IsOurNetifMeaning(DESC_STA, "st");
    IsOurNetifMeaning(DESC_STA, "stx");
    IsOurNetifMeaning(DESC_STA, "sta1");
    IsOurNetifMeaning(DESC_STA, "s");
    IsOurNetifMeaning(DESC_STA, "eta");
  }

  /** Every descriptor matches itself as a prefix. */
  lemma IsOurNetifReflexive(desc: CString)
    ensures IsOurNetif(desc, desc)
  {
    IsOurNetifMeaning(desc, desc);
  }

  /** Appending a suffix to a matching descriptor keeps it matching, for any
      non-empty prefix. */
  lemma SuffixKeepsMatch(prefix: CString, desc: CString, suffix: CString)
    requires |prefix| > 0
    requires |desc| + |suffix| <= SIZE_MAX
    requires IsOurNetif(prefix, desc)
    ensures IsOurNetif(prefix, desc + suffix)
  {
    IsOurNetifMeaning(prefix, desc);
    var longer: CString := desc + suffix;
    IsOurNetifMeaning(prefix, longer);
    assert longer[..|prefix| - 1] == desc[..|prefix| - 1];
  }

  /** A descriptor shorter than |prefix| - 1 characters never matches: the
      comparison meets its terminator first. */
  lemma ShortDescriptorRejected(prefix: CString, desc: CString)
    requires |desc| < |prefix| - 1
    ensures !IsOurNetif(prefix, desc)
  {
    IsOurNetifMeaning(prefix, desc);
  }

  /** No descriptor belongs to both the station and the Ethernet netif. */
  lemma StationAndEthernetDisjoint(desc: CString)
    ensures !(IsOurNetif(DESC_STA, desc) && IsOurNetif(DESC_ETH, desc))
  {
    IsOurNetifMeaning(DESC_STA, desc);
    IsOurNetifMeaning(DESC_ETH, desc);
  }
}
