/** `formatTime`: the `HH:MM` part of a stored time. */
module DateUtils {
  /** `timeStr.slice(0, 5)` */
  function FormatTime(s: string): (r: string)
    // A prefix of the input, five characters long or the whole of a shorter input.
    ensures r <= s
    ensures |r| == if |s| < 5 then |s| else 5
  {
    if |s| < 5 then s else s[..5]
  }

  /** Formatting a formatted time changes nothing. */
  lemma FormatTimeIdempotent(s: string)
    ensures FormatTime(FormatTime(s)) == FormatTime(s)
  {
  }

  /** `HH:MM:SS` loses its seconds; `HH:MM` comes back unchanged. */
  lemma DropsSeconds(hms: string, hm: string)
    requires |hms| == 8 && hms[2] == ':' && hms[5] == ':'
    requires |hm| == 5
    ensures FormatTime(hms) == hms[..5] && FormatTime(hms)[2] == ':'
    ensures FormatTime(hm) == hm
  {
  }
}
