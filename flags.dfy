/**
  The command line of the blocker (`main`, main.go): `--allow` / `--deny`
  choose the mode, `--countries` is a comma-separated list of country codes.
 */
module Flags {

  import opened Wrappers
  import opened Text

  /** `Config`: the mode flags, the country list and the refresh period. */
  datatype Config = Config(allowMode: bool, denyMode: bool, countries: seq<string>, updatePeriodSeconds: nat)

  /** `time.Hour`, the refresh period `main` always sets. */
  const UpdatePeriodSeconds: nat := 3600

  /** Why `main` refuses its flags (each a `log.Fatal`). */
  datatype ConfigError = BothModes | NoMode | NoCountries

  /** What a configuration that passed validation looks like. */
  predicate ValidConfig(cfg: Config)
  {
    cfg.allowMode != cfg.denyMode && |cfg.countries| >= 1
  }

  /** The flag checks of `main`, in their order, then the construction of `Config`. */
  function ParseFlags(allow: bool, deny: bool, countries: string): (r: Result<Config, ConfigError>)
    ensures r.Ok? <==> allow != deny && countries != ""
    ensures allow && deny ==> r == Err(BothModes)
    ensures !allow && !deny ==> r == Err(NoMode)
    ensures allow != deny && countries == "" ==> r == Err(NoCountries)
    ensures r.Ok? ==> ValidConfig(r.value)
    ensures r.Ok? ==> r.value.allowMode == allow && r.value.denyMode == deny
    ensures r.Ok? ==> r.value.updatePeriodSeconds == UpdatePeriodSeconds
    ensures r.Ok? ==> Join(r.value.countries, ',') == countries
    ensures r.Ok? ==> forall i :: 0 <= i < |r.value.countries| ==> ',' !in r.value.countries[i]
  {
    if allow && deny then Err(BothModes)
    else if !allow && !deny then Err(NoMode)
    else if countries == "" then Err(NoCountries)
    else
      JoinSplit(countries, ',');
      Ok(Config(allow, deny, Split(countries, ','), UpdatePeriodSeconds))
  }

  /** Exactly the configurations with one mode and a non-empty country
      string are accepted, and the country list is that string split at
      commas, piece for piece. */
  lemma ParseFlagsCountries(allow: bool, deny: bool, countries: seq<string>)
    requires allow != deny
    requires |countries| >= 1 && countries != [""]
    requires forall i :: 0 <= i < |countries| ==> ',' !in countries[i]
    ensures ParseFlags(allow, deny, Join(countries, ',')).Ok?
    ensures ParseFlags(allow, deny, Join(countries, ',')).value.countries == countries
  {
    SplitJoin(countries, ',');
  }
}
