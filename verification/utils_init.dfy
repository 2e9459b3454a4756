/** `utils/__init__.py`, which repeats the two case-conversion helpers of
    `utils/utils.py`. */
module UtilsInit {
  import opened Wrappers
  import opened PyStr
  import Utils

  /** This copy of `camel_to_snake` calls `re.sub` but the module never
      imports `re`, so every call raises NameError before looking at its
      argument. */
  function CamelToSnake(camel: string): (r: Result<string, PyException>)
    ensures r.Failure? && r.error == NameError
  {
    Failure(NameError)
  }

  /** This copy of `snake_to_camel` is the same code as the one in
      `utils/utils.py`: no "_" is left, and the output starts with the
      rewritten text before the first "_". */
  function SnakeToCamel(snake: string): (r: string)
    ensures '_' !in r
    ensures var w := Utils.FkIkRewrite(snake);
            var i := FirstIndex(w, '_');
            if i < 0 then r == w else StartsWith(r, w[..i])
  {
    Utils.SnakeToCamelNoUnderscore(snake);
    Utils.SnakeToCamelHead(snake);
    Utils.SnakeToCamel(snake)
  }
}
