/** The typed syntax tree handed to the CFG builder (the data classes of
    GoASTVisitor.java). Source positions are not carried: the builder never
    reads them. */
module Ast {
  import opened Util

  datatype Expr =
    | Identifier(name: string)
    | Literal(text: string)
    | BinaryExpr(operator: string, left: Expr, right: Expr)
    | UnaryExpr(operator: string, operand: Expr)
    | IncDecExpr(operator: string, operand: Expr)
    | CallExpr(callee: Expr, arguments: seq<Expr>)
      /** fmt.Print / fmt.Println / fmt.Printf */
    | FmtPrint(printType: string, arguments: seq<Expr>)

  datatype Stmt =
    | IfStmt(condition: Option<Expr>, thenBlock: Block, elseBlock: Option<Block>)
    | ForStmt(init: Option<Stmt>, condition: Option<Expr>, post: Option<Stmt>, body: Block)
    | ExpressionStmt(expression: Expr)
    | ShortVarDecl(names: seq<string>, values: seq<Expr>)
      /** Any other StatementNode subclass: the builder lowers it to UNKNOWN_STMT. */
    | OtherStmt

  datatype Block = Block(statements: seq<Stmt>)

  datatype Parameter = Parameter(name: string, typeName: string)

  datatype Function = Function(name: string, parameters: seq<Parameter>, body: Option<Block>)

  /** A top-level declaration: a function, or a variable declaration (DeclarationNode). */
  datatype Decl =
    | FunctionDecl(func: Function)
    | VarDecl(identifier: string, typeName: string)

  datatype Import = Import(alias: string, path: string)

  datatype Program = Program(packageName: string, imports: seq<Import>, declarations: seq<Decl>)

  /** What `build` may be handed: any ASTNode; only a ProgramNode is lowered. */
  datatype AstNode =
    | ProgramNode(program: Program)
    | FunctionNode(func: Function)
    | BlockNode(block: Block)
    | StatementNode(stmt: Stmt)
    | ExpressionNode(expr: Expr)
}
