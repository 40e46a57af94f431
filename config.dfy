/**
 * The per-monitor settings as the configuration store and the compositor
 * exchange them: a mapping from `str(index)` to an entry with optional
 * `file`, `mode` and `background` keys, and the defaults used when a key is
 * missing.
 */
module Config {
  import opened Base

  /** A background colour as the "#rrggbb" text the settings carry. */
  type Color = string

  /** `DEFAULT_OPTIONS['mode']` */
  const DefaultMode: string := "fill"

  /** `DEFAULT_OPTIONS['background']` */
  const DefaultBackground: Color := "#000000"

  /**
   * One monitor's entry. `file` is None when the key is missing or null;
   * `mode` and `background` are None when the key is missing.
   */
  datatype MonitorConfig = MonitorConfig(file: Option<string>, mode: Option<string>, background: Option<Color>)

  /** The entry `states.get(key, {})` yields for a missing key. */
  const EmptyConfig := MonitorConfig(None, None, None)

  /** The key under which monitor `index` is stored: `str(index)`. */
  function StateKey(index: nat): string {
    NatToString(index)
  }

  /** Distinct monitors never share a key. */
  lemma StateKeysDistinct(i: nat, j: nat)
    requires i != j
    ensures StateKey(i) != StateKey(j)
  {
    if StateKey(i) == StateKey(j) {
      NatToStringInjective(i, j);
    }
  }

  /** `states.get(str(index), {})` */
  function Lookup(states: map<string, MonitorConfig>, index: nat): (c: MonitorConfig)
    ensures StateKey(index) in states ==> c == states[StateKey(index)]
    ensures StateKey(index) !in states ==> c == EmptyConfig
  {
    if StateKey(index) in states then states[StateKey(index)] else EmptyConfig
  }
}
