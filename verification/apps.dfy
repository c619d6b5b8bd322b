/** The records the launcher passes around. */
module Apps {

  /** The `'type'` tag of an entry: `'desktop'` for a `.desktop` descriptor,
      `'cli'` for an executable found on `PATH`. */
  datatype Kind = Desktop | Cli

  /** What a scan stores under an application's name:
      `{'command': …, 'description': …, 'type': …}`. */
  datatype Info = Info(command: string, description: string, kind: Kind)

  /** One catalog entry: `{'name': …, 'command': …, 'description': …, 'type': …}`. */
  datatype App = App(name: string, command: string, description: string, kind: Kind)

  /** What `subprocess.Popen(command, shell=True, …)` did: started the
      shell, or raised. The child is never waited for. */
  datatype SpawnResult = Started | SpawnFailed(reason: string)
}
