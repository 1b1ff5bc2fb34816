/**
 * The on-disk layout: a platform-dependent base directory and the bin,
 * config, nginx, php and Log directories composed below it.
 */
module PathService {
  import opened FileSystem

  datatype Platform = Win32 | Posix

  /**
   * What the base directory is computed from: the platform, the USERPROFILE
   * environment variable and Electron's `home` and `userData` paths. The empty
   * path stands for a value that is empty or missing.
   */
  datatype Env = Env(platform: Platform, userProfile: Path, home: Path, userData: Path)

  /** `USERPROFILE || home || userData`: the first of the three that is not empty. */
  function ProfileRoot(env: Env): (r: Path)
    ensures env.userProfile != [] ==> r == env.userProfile
    ensures env.userProfile == [] && env.home != [] ==> r == env.home
    ensures env.userProfile == [] && env.home == [] ==> r == env.userData
  {
    if env.userProfile != [] then env.userProfile
    else if env.home != [] then env.home
    else env.userData
  }

  /** On win32 `<profile>/.config/devsetup-manager`, elsewhere Electron's userData. */
  function BaseDir(env: Env): (r: Path)
    ensures env.platform == Posix ==> r == env.userData
    ensures env.platform == Win32 ==>
      StrictlyUnder(ProfileRoot(env), r) && |r| == |ProfileRoot(env)| + 2
      && r[|r| - 2] == ".config" && r[|r| - 1] == "devsetup-manager"
  {
    if env.platform == Win32 then Join(Join(ProfileRoot(env), ".config"), "devsetup-manager")
    else env.userData
  }

  function BinDir(env: Env): (r: Path)
    ensures StrictlyUnder(BaseDir(env), r) && |r| == |BaseDir(env)| + 1 && r[|r| - 1] == "bin"
  {
    Join(BaseDir(env), "bin")
  }

  function ConfigDir(env: Env): (r: Path)
    ensures StrictlyUnder(BaseDir(env), r) && |r| == |BaseDir(env)| + 1 && r[|r| - 1] == "config"
  {
    Join(BaseDir(env), "config")
  }

  function NginxConfigDir(env: Env): (r: Path)
    ensures StrictlyUnder(ConfigDir(env), r) && |r| == |ConfigDir(env)| + 1 && r[|r| - 1] == "nginx"
  {
    Join(ConfigDir(env), "nginx")
  }

  function PhpConfigDir(env: Env): (r: Path)
    ensures StrictlyUnder(ConfigDir(env), r) && |r| == |ConfigDir(env)| + 1 && r[|r| - 1] == "php"
  {
    Join(ConfigDir(env), "php")
  }

  /** The log directory is spelled with a capital L. */
  function LogDir(env: Env): (r: Path)
    ensures StrictlyUnder(BaseDir(env), r) && |r| == |BaseDir(env)| + 1 && r[|r| - 1] == "Log"
  {
    Join(BaseDir(env), "Log")
  }

  /**
   * The directories form a tree: bin, config and Log are siblings that do not
   * contain one another, nginx and php are distinct children of config, and
   * nothing under bin is a configuration or log directory.
   */
  lemma LayoutIsATree(env: Env)
    ensures StrictlyUnder(BaseDir(env), NginxConfigDir(env)) && StrictlyUnder(BaseDir(env), PhpConfigDir(env))
    ensures !Under(BinDir(env), ConfigDir(env)) && !Under(ConfigDir(env), BinDir(env))
    ensures !Under(BinDir(env), LogDir(env)) && !Under(LogDir(env), BinDir(env))
    ensures !Under(ConfigDir(env), LogDir(env)) && !Under(LogDir(env), ConfigDir(env))
    ensures !Under(NginxConfigDir(env), PhpConfigDir(env)) && !Under(PhpConfigDir(env), NginxConfigDir(env))
    ensures forall p :: Under(BinDir(env), p) ==> !Under(ConfigDir(env), p) && !Under(LogDir(env), p)
  {
    var b, c, l := BinDir(env), ConfigDir(env), LogDir(env);
    forall p | Under(b, p)
      ensures !Under(c, p) && !Under(l, p)
    {
      assert p[|b| - 1] == "bin";
    }
  }
}
