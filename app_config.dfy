/** The application configuration (`config.LoadConfig`): the JSON file's
    values, each overridden by its environment variable when that is set
    and non-empty. Reading and decoding the file are one input, its
    outcome; the environment is a map from variable names to values. */
module AppConfig {
  import opened Wrappers

  datatype Config = Config(
    serverPort: string,
    interfaceName: string,
    storagePath: string,
    serverEndpoint: string,
    serverPubKey: string,
    corsAllowedOrigins: string)

  /** `os.Getenv`: the empty text for an unset variable. */
  function Getenv(env: map<string, string>, name: string): string {
    if name in env then env[name] else ""
  }

  /** The environment's value for a field when non-empty, else the file's. */
  function Override(env: map<string, string>, name: string, fromFile: string): (v: string)
    ensures Getenv(env, name) != "" ==> v == Getenv(env, name)
    ensures Getenv(env, name) == "" ==> v == fromFile
  {
    var e := Getenv(env, name);
    if e != "" then e else fromFile
  }

  /** The file's error is returned as it is; otherwise every field is the
      file's value unless its own variable overrides it, and no variable
      touches another field. */
  method LoadConfig(file: Result<Config, string>, env: map<string, string>) returns (r: Result<Config, string>)
    ensures file.Err? ==> r == Err(file.error)
    ensures file.Ok? ==> r.Ok? && var f := file.value; var c := r.value;
      c.serverPort == Override(env, "WG_SERVER_PORT", f.serverPort) &&
      c.interfaceName == Override(env, "WG_INTERFACE_NAME", f.interfaceName) &&
      c.storagePath == Override(env, "WG_STORAGE_PATH", f.storagePath) &&
      c.serverEndpoint == Override(env, "WG_SERVER_ENDPOINT", f.serverEndpoint) &&
      c.serverPubKey == Override(env, "WG_SERVER_PUBKEY", f.serverPubKey) &&
      c.corsAllowedOrigins == Override(env, "CORS_ALLOWED_ORIGINS", f.corsAllowedOrigins)
  {
    if file.Err? {
      return Err(file.error);
    }
    var cfg := file.value;
    var envPort := Getenv(env, "WG_SERVER_PORT");
    if envPort != "" {
      cfg := cfg.(serverPort := envPort);
    }
    var envInterface := Getenv(env, "WG_INTERFACE_NAME");
    if envInterface != "" {
      cfg := cfg.(interfaceName := envInterface);
    }
    var envStorage := Getenv(env, "WG_STORAGE_PATH");
    if envStorage != "" {
      cfg := cfg.(storagePath := envStorage);
    }
    var envEndpoint := Getenv(env, "WG_SERVER_ENDPOINT");
    if envEndpoint != "" {
      cfg := cfg.(serverEndpoint := envEndpoint);
    }
    var envPubKey := Getenv(env, "WG_SERVER_PUBKEY");
    if envPubKey != "" {
      cfg := cfg.(serverPubKey := envPubKey);
    }
    var envOrigins := Getenv(env, "CORS_ALLOWED_ORIGINS");
    if envOrigins != "" {
      cfg := cfg.(corsAllowedOrigins := envOrigins);
    }
    return Ok(cfg);
  }
}
