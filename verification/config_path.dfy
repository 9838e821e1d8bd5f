/** Choosing the configuration path in 1_concepts/1_4_cow/src/main.rs: the
    command line (program name included) and the `APP_CONF` environment
    variable are parameters; `None` stands for a variable that is not set. */
module ConfigPath {
  import opened Base

  const DEFAULT_CONF_PATH: string := "/etc/app/app.conf"
  const EMPTY_ENV: string := "APP_CONF value is empty"
  const EMPTY_ARG: string := "Err: empty conf argument"
  const CONF_FLAG: string := "--conf"

  /** `no_args_case`: a non-empty `APP_CONF`, an error for an empty one, and
      the default path when it is not set. */
  function NoArgsCase(env: Option<string>): (r: Result<string, string>)
    ensures r.Err? <==> env == Some("")
    ensures r.Err? ==> r.error == EMPTY_ENV
    ensures r.Ok? ==> r.value != "" && (r.value == DEFAULT_CONF_PATH <==> env.None? || env == Some(DEFAULT_CONF_PATH))
    ensures env.Some? && r.Ok? ==> r.value == env.value
  {
    match env
    case Some(value) => if value != "" then Ok(value) else Err(EMPTY_ENV)
    case None => Ok(DEFAULT_CONF_PATH)
  }

  /** The argument at `i`, as the iterator yields it: `None` past the end. */
  function At(argv: seq<string>, i: nat): (r: Option<string>)
    ensures r.Some? <==> i < |argv|
  {
    if i < |argv| then Some(argv[i]) else None
  }

  /** `--conf` at `j` with a value after it. */
  predicate ConfAt(argv: seq<string>, j: int)
  {
    0 <= j && j + 1 < |argv| && argv[j] == CONF_FLAG
  }

  /** `j` is the first such position. */
  predicate FirstConf(argv: seq<string>, j: int)
  {
    ConfAt(argv, j) && forall i | 0 <= i < j :: !ConfAt(argv, i)
  }

  /** `args_case`: slide a two-argument window over the command line; the
      first window `("--conf", path)` decides, and when none is found the
      environment decides. */
  method ArgsCase(argv: seq<string>, env: Option<string>) returns (r: Result<string, string>)
    ensures forall j | FirstConf(argv, j) :: r == (if argv[j + 1] != "" then Ok(argv[j + 1]) else Err(EMPTY_ARG))
    ensures (forall j | 0 <= j < |argv| :: !ConfAt(argv, j)) ==> r == NoArgsCase(env)
  {
    var fst, snd := At(argv, 0), At(argv, 1);
    var next := 2;
    while true
      invariant 2 <= next && fst == At(argv, next - 2) && snd == At(argv, next - 1)
      invariant forall i | 0 <= i < next - 2 :: !ConfAt(argv, i)
      decreases |argv| + 2 - next
    {
      match (fst, snd)
      case (Some(f), Some(v)) =>
        if f == CONF_FLAG {
          assert ConfAt(argv, next - 2);
          if v != "" {
            return Ok(v);
          }
          return Err(EMPTY_ARG);
        }
        fst, snd := snd, At(argv, next);
        next := next + 1;
      case (None, None) =>
        break;
      case (None, Some(_)) =>
        assert false;
      case (Some(_), None) =>
        break;
    }
    r := NoArgsCase(env);
  }

  /** The path `main` settles on: fewer than two arguments (the program name
      counts) leaves it to the environment. */
  method ChoosePath(argv: seq<string>, env: Option<string>) returns (r: Result<string, string>)
    ensures |argv| < 2 ==> r == NoArgsCase(env)
    ensures forall j | FirstConf(argv, j) :: r == (if argv[j + 1] != "" then Ok(argv[j + 1]) else Err(EMPTY_ARG))
    ensures (forall j | 0 <= j < |argv| :: !ConfAt(argv, j)) ==> r == NoArgsCase(env)
  {
    if |argv| < 2 {
      r := NoArgsCase(env);
    } else {
      r := ArgsCase(argv, env);
    }
  }
}
